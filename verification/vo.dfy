/** The API value objects and the two mappings between them and the stored
    preference: `PreferenceVOMapper` (domain record) and
    `PreferenceVOConverter` (entity). The VO's subclass carries the scope; the
    type travels as the enum constant's name. */
module ApiMapping {
  import opened Common
  import opened PrefTypes
  import opened Domain

  /** The runtime class of a VO: one subclass per scope, or the plain base class. */
  datatype VoKind = ApplicationVO | ModuleVO | RoleVO | UserVO | PlainVO

  /** `PreferenceVO`; `val` is the string form of the serializable value. */
  datatype PreferenceVO = PreferenceVO(
    kind: VoKind,
    pKey: NStr,
    key: NStr,
    owner: NStr,
    description: NStr,
    val: NStr,
    groupName: NStr,
    typeName: NStr)

  /** The subclass chosen for a scope. */
  function KindOfScope(s: Scope): (k: VoKind)
    ensures k != PlainVO
  {
    match s
    case APPLICATION => ApplicationVO
    case MODULE => ModuleVO
    case ROLE => RoleVO
    case USER => UserVO
  }

  /** `resolveScope(vo)`: the scope of a subclass; the plain class has none. */
  function ResolveScope(v: PreferenceVO): (r: Result<Scope>)
    ensures r.Failure? <==> v.kind == PlainVO
    ensures r.Failure? ==> r.error == IllegalState
    ensures r.Success? ==> KindOfScope(r.value) == v.kind
  {
    match v.kind
    case ApplicationVO => Success(APPLICATION)
    case ModuleVO => Success(MODULE)
    case RoleVO => Success(ROLE)
    case UserVO => Success(USER)
    case PlainVO => Failure(IllegalState)
  }

  /** The type as the VO carries it: the constant's name, or null. */
  function TypeNameOf(t: Option<PreferenceType>): (r: NStr)
    ensures r.None? <==> t.None?
    ensures t.Some? ==> TypeByName(r) == Success(t.value)
  {
    if t.None? then None else
      TypeNameRoundTrip(t.value);
      Some(TypeName(t.value))
  }

  /** The fields every VO takes from a preference, in a VO of class `kind`. */
  function Fill(kind: VoKind, p: Preference, owner: NStr): PreferenceVO {
    PreferenceVO(kind, p.pKey, p.key, owner, p.description, p.val, p.groupName, TypeNameOf(p.prefType))
  }

  // ----------------------------------------------------------- PreferenceVOMapper

  /** `toVO(source)` for a non-null source: the class follows the scope, whose
      null value fails the switch. */
  function ToVOOne(p: Preference): (r: Result<PreferenceVO>)
    ensures r.Failure? <==> p.scope.None?
    ensures r.Failure? ==> r.error == NullPointer
    ensures r.Success? ==> ResolveScope(r.value) == Success(p.scope.value)
    ensures r.Success? ==>
              && r.value.pKey == p.pKey && r.value.key == p.key && r.value.owner == p.owner
              && r.value.description == p.description && r.value.val == p.val
              && r.value.groupName == p.groupName
              && (r.value.typeName.None? <==> p.prefType.None?)
              && (p.prefType.Some? ==> TypeByName(r.value.typeName) == Success(p.prefType.value))
  {
    if p.scope.None? then Failure(NullPointer)
    else Success(Fill(KindOfScope(p.scope.value), p, p.owner))
  }

  /** `toVO(source)`: null maps to null. */
  function ToVO(source: Option<Preference>): (r: Result<Option<PreferenceVO>>)
    ensures source.None? ==> r == Success(None)
    ensures source.Some? ==> (r.Success? <==> source.value.scope.Some?)
    ensures source.Some? && r.Success? ==> r.value == Some(ToVOOne(source.value).value)
  {
    match source
    case None => Success(None)
    case Some(p) =>
      match ToVOOne(p)
      case Failure(e) => Failure(e)
      case Success(v) => Success(Some(v))
  }

  /** `toUserVO(source)`: always the user class, whatever the scope, and never failing. */
  function ToUserVO(source: Option<Preference>): (r: Option<PreferenceVO>)
    ensures r.Some? <==> source.Some?
    ensures r.Some? ==> r.value.kind == UserVO && ResolveScope(r.value) == Success(USER)
    ensures r.Some? && source.value.scope.Some? ==>
              r.value == ToVOOne(source.value).value.(kind := UserVO)
  {
    match source
    case None => None
    case Some(p) => Some(Fill(UserVO, p, p.owner))
  }

  /** `toVOList(sources)`: a null collection maps to the empty list, otherwise
      element by element in order; the first element without scope fails it. */
  function ToVOList(sources: Option<seq<Preference>>): (r: Result<seq<PreferenceVO>>)
    ensures sources.None? ==> r == Success([])
    ensures sources.Some? ==> (r.Success? <==> forall i :: 0 <= i < |sources.value| ==> sources.value[i].scope.Some?)
    ensures r.Failure? ==> r.error == NullPointer
    ensures sources.Some? && r.Success? ==>
              |r.value| == |sources.value| &&
              forall i :: 0 <= i < |r.value| ==> r.value[i] == ToVOOne(sources.value[i]).value
  {
    match sources
    case None => Success([])
    case Some(ps) => MapAll(ps)
  }

  function MapAll(ps: seq<Preference>): (r: Result<seq<PreferenceVO>>)
    ensures r.Success? <==> forall i :: 0 <= i < |ps| ==> ps[i].scope.Some?
    ensures r.Failure? ==> r.error == NullPointer
    ensures r.Success? ==> |r.value| == |ps| && forall i :: 0 <= i < |ps| ==> r.value[i] == ToVOOne(ps[i]).value
    decreases |ps|
  {
    if ps == [] then Success([])
    else
      var n := |ps| - 1;
      match MapAll(ps[..n])
      case Failure(e) => Failure(e)
      case Success(vs) =>
        match ToVOOne(ps[n])
        case Failure(e) => Failure(e)
        case Success(v) => Success(vs + [v])
  }

  /** The builder chain shared by `toDomain` and `convertTo`: the type is looked
      up by exact name before the scope is resolved, so an unknown type wins
      over an unscoped class. */
  function FromVO(v: PreferenceVO): (r: Result<Preference>)
    ensures r.Failure? <==> TypeByName(v.typeName).Failure? || v.kind == PlainVO
    ensures TypeByName(v.typeName).Failure? ==> r == Failure(NotFound)
    ensures TypeByName(v.typeName).Success? && v.kind == PlainVO ==> r == Failure(IllegalState)
    ensures r.Success? ==>
              && r.value.scope.Some? && ResolveScope(v) == Success(r.value.scope.value)
              && r.value.prefType == Some(TypeByName(v.typeName).value)
              && r.value.key == v.key && r.value.owner == v.owner && r.value.description == v.description
              && r.value.val == v.val && r.value.groupName == v.groupName
              && (r.value.pKey.Some? <==> NonEmpty(v.pKey)) && (r.value.pKey.Some? ==> r.value.pKey == v.pKey)
              && !r.value.fromFile && r.value.defValue.None? && r.value.minValue.None? && r.value.maxValue.None?
              && r.value.lastModifiedDt.None?
  {
    match TypeByName(v.typeName)
    case Failure(e) => Failure(e)
    case Success(t) =>
      match ResolveScope(v)
      case Failure(e) => Failure(e)
      case Success(s) =>
        Success(Build(NewBuilder.(pKey := v.pKey, key := v.key, owner := v.owner, description := v.description,
                                  val := v.val, prefType := Some(t), scope := Some(s), groupName := v.groupName)))
  }

  /** `toDomain(source)`: null maps to null. */
  function ToDomain(source: Option<PreferenceVO>): (r: Result<Option<Preference>>)
    ensures source.None? ==> r == Success(None)
    ensures source.Some? ==> (r.Success? <==> FromVO(source.value).Success?)
    ensures source.Some? && r.Success? ==> r.value == Some(FromVO(source.value).value)
  {
    match source
    case None => Success(None)
    case Some(v) =>
      match FromVO(v)
      case Failure(e) => Failure(e)
      case Success(p) => Success(Some(p))
  }

  /** Mapping a scoped and typed preference to its VO and back succeeds and
      gives an equal preference exactly when nothing the VO does not carry is
      set: `fromFile`, the default, minimum and maximum values. The persistent
      key survives when it is non-empty. */
  lemma DomainRoundTrip(p: Preference)
    requires p.scope.Some? && p.prefType.Some?
    ensures ToDomain(ToVO(Some(p)).value).Success?
    ensures var q := ToDomain(ToVO(Some(p)).value).value.value;
            && (PrefEquals(q, p) <==> !p.fromFile && p.defValue.None? && p.minValue.None? && p.maxValue.None?)
            && (HasPersistentKey(p) ==> q.pKey == p.pKey)
            && (!HasPersistentKey(p) ==> q.pKey.None?)
  {
  }

  /** A preference without type maps to a VO without type name, which the way
      back refuses. */
  lemma UntypedDoesNotRoundTrip(p: Preference)
    requires p.scope.Some? && p.prefType.None?
    ensures ToDomain(ToVO(Some(p)).value) == Failure(NotFound)
  {
  }

  /** The other direction: a VO of a scope subclass with a known type name
      and no empty persistent key comes back unchanged. */
  lemma VoRoundTrip(v: PreferenceVO)
    requires v.kind != PlainVO && TypeByName(v.typeName).Success? && v.pKey != Some("")
    ensures ToDomain(Some(v)).Success?
    ensures ToVO(ToDomain(Some(v)).value) == Success(Some(v))
  {
  }

  // -------------------------------------------------------- PreferenceVOConverter

  /** `convertTo(source)`: the same builder chain on the entity builder, whose
      fields and persistent-key rule are the domain builder's. */
  function ConvertTo(source: Option<PreferenceVO>): (r: Result<Option<Preference>>)
    ensures r == ToDomain(source)
  {
    match source
    case None => Success(None)
    case Some(v) =>
      match TypeByName(v.typeName)
      case Failure(e) => Failure(e)
      case Success(t) =>
        match ResolveScope(v)
        case Failure(e) => Failure(e)
        case Success(s) =>
          Success(Some(Build(NewBuilder.(pKey := v.pKey, key := v.key, owner := v.owner, description := v.description,
                                         val := v.val, prefType := Some(t), scope := Some(s), groupName := v.groupName))))
  }

  /** `convertFrom(source)`: the class follows the scope, tested constant by
      constant, so a null scope reaches the final IllegalArgumentException; in
      each branch the type's name is taken without a null check. An application
      VO gets no owner. */
  function ConvertFrom(source: Option<Preference>): (r: Result<Option<PreferenceVO>>)
    ensures source.None? ==> r == Success(None)
    ensures source.Some? && source.value.scope.None? ==> r == Failure(IllegalArgument)
    ensures source.Some? && source.value.scope.Some? && source.value.prefType.None? ==> r == Failure(NullPointer)
    ensures source.Some? && source.value.scope.Some? && source.value.prefType.Some? ==>
              && r.Success? && r.value.Some?
              && ResolveScope(r.value.value) == Success(source.value.scope.value)
              && (source.value.scope == Some(APPLICATION) ==> r.value.value.owner.None?)
              && (source.value.scope != Some(APPLICATION) ==> r.value.value.owner == source.value.owner)
              && r.value.value.(owner := source.value.owner) == ToVOOne(source.value).value
  {
    match source
    case None => Success(None)
    case Some(e) =>
      if e.scope.None? then Failure(IllegalArgument)
      else if e.prefType.None? then Failure(NullPointer)
      else if e.scope == Some(APPLICATION) then Success(Some(Fill(ApplicationVO, e, None)))
      else Success(Some(Fill(KindOfScope(e.scope.value), e, e.owner)))
  }

  /** The two outbound mappings agree except that the converter drops an
      application preference's owner, and that they fail differently. */
  lemma ConvertFromAgreesWithToVO(e: Preference)
    requires e.scope.Some? && e.prefType.Some?
    ensures e.scope != Some(APPLICATION) ==> ConvertFrom(Some(e)) == ToVO(Some(e))
    ensures e.scope == Some(APPLICATION) ==> ConvertFrom(Some(e)) == ToVO(Some(e.(owner := None)))
  {
  }

  /** Entity to VO and back: equal to the entity exactly when it is not from a
      file, has no default, minimum or maximum value, and, in application
      scope, no owner. */
  lemma EntityRoundTrip(e: Preference)
    requires e.scope.Some? && e.prefType.Some?
    ensures ConvertTo(ConvertFrom(Some(e)).value).Success?
    ensures var q := ConvertTo(ConvertFrom(Some(e)).value).value.value;
            PrefEquals(q, e) <==>
              !e.fromFile && e.defValue.None? && e.minValue.None? && e.maxValue.None?
              && (e.scope == Some(APPLICATION) ==> e.owner.None?)
  {
  }
}
