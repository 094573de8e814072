/** The two closed enumerations every preference carries: its scope
    (`PropertyScope`) and its value type (`PreferenceType`, bound to a class
    name), with the lookups by enum name and by class name. */
module PrefTypes {
  import opened Common

  datatype Scope = APPLICATION | MODULE | ROLE | USER

  /** `PropertyScope.name()`. */
  function ScopeName(s: Scope): string {
    match s
    case APPLICATION => "APPLICATION"
    case MODULE => "MODULE"
    case ROLE => "ROLE"
    case USER => "USER"
  }

  lemma ScopeNameInjective(a: Scope, b: Scope)
    ensures ScopeName(a) == ScopeName(b) <==> a == b
  {
  }

  datatype PreferenceType = FLOAT | STRING | INT | OBJECT | BOOL | JSON

  const AllTypes: seq<PreferenceType> := [FLOAT, STRING, INT, OBJECT, BOOL, JSON]

  /** `PreferenceType.name()`. */
  function TypeName(t: PreferenceType): string {
    match t
    case FLOAT => "FLOAT"
    case STRING => "STRING"
    case INT => "INT"
    case OBJECT => "OBJECT"
    case BOOL => "BOOL"
    case JSON => "JSON"
  }

  /** `getClazz()`: a Java class name, except JSON which carries the literal "JSON". */
  function Clazz(t: PreferenceType): string {
    match t
    case FLOAT => "java.lang.Float"
    case STRING => "java.lang.String"
    case INT => "java.lang.Integer"
    case OBJECT => "java.lang.Object"
    case BOOL => "java.lang.Boolean"
    case JSON => "JSON"
  }

  /** The first constant, in declaration order, whose projection `f` equals `s`;
      this is `Arrays.stream(values()).filter(...).findFirst()`. */
  function FirstMatch(ts: seq<PreferenceType>, f: PreferenceType -> string, s: NStr): (r: Option<PreferenceType>)
    ensures r.Some? ==> r.value in ts && s == Some(f(r.value))
    ensures r.None? ==> forall t :: t in ts ==> s != Some(f(t))
  {
    if ts == [] then None
    else if s == Some(f(ts[0])) then Some(ts[0])
    else FirstMatch(ts[1..], f, s)
  }

  /** `PreferenceType.getForClazz(clazz)`: the constant with that class name, or null. */
  function GetForClazz(clazz: NStr): (r: Option<PreferenceType>)
    ensures r.Some? <==> exists t :: clazz == Some(Clazz(t))
    ensures r.Some? ==> clazz == Some(Clazz(r.value))
  {
    FirstMatch(AllTypes, Clazz, clazz)
  }

  /** The lookup by exact enum name used by the mappers (file, VO), which throw
      NotFoundException when nothing matches, including a null name. */
  function TypeByName(name: NStr): (r: Result<PreferenceType>)
    ensures r.Success? <==> exists t :: name == Some(TypeName(t))
    ensures r.Success? ==> name == Some(TypeName(r.value))
    ensures r.Failure? ==> r.error == NotFound
  {
    match FirstMatch(AllTypes, TypeName, name)
    case Some(t) => Success(t)
    case None => Failure(NotFound)
  }

  /** The six class names are pairwise distinct, so the enum and its class names
      are in one-to-one correspondence and `getForClazz` inverts `getClazz`. */
  lemma ClazzRoundTrip(t: PreferenceType)
    ensures GetForClazz(Some(Clazz(t))) == Some(t)
    ensures forall u :: Clazz(u) == Clazz(t) ==> u == t
  {
  }

  /** Likewise for the enum names. */
  lemma TypeNameRoundTrip(t: PreferenceType)
    ensures TypeByName(Some(TypeName(t))) == Success(t)
  {
  }
}

/** `PreferenceTypeConverter`: the JPA column codec, writing a type as its class
    name and reading it back with `getForClazz`. */
module TypeConverter {
  import opened Common
  import opened PrefTypes

  /** `convertToDatabaseColumn`. */
  function ToDatabaseColumn(attribute: Option<PreferenceType>): (r: NStr)
    ensures attribute.None? <==> r.None?
    ensures attribute.Some? ==> r == Some(Clazz(attribute.value))
  {
    match attribute
    case None => None
    case Some(t) => Some(Clazz(t))
  }

  /** `convertToEntityAttribute`: null stays null, an unknown string becomes null. */
  function ToEntityAttribute(dbData: NStr): (r: Option<PreferenceType>)
    ensures r.Some? ==> dbData == Some(Clazz(r.value))
    ensures dbData.Some? && (forall t :: dbData.value != Clazz(t)) ==> r.None?
  {
    match dbData
    case None => None
    case Some(_) => GetForClazz(dbData)
  }

  /** Writing a type and reading it back yields the same type, null included. */
  lemma {:induction false} ColumnRoundTrip(attribute: Option<PreferenceType>)
    ensures ToEntityAttribute(ToDatabaseColumn(attribute)) == attribute
  {
    if attribute.Some? {
      ClazzRoundTrip(attribute.value);
    }
  }

  /** Reading then writing is the identity exactly on the six class names and null. */
  lemma ColumnRoundTripFromDb(dbData: NStr)
    ensures ToDatabaseColumn(ToEntityAttribute(dbData)) == dbData
            <==> dbData.None? || exists t :: dbData == Some(Clazz(t))
  {
  }
}
