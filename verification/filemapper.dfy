/** `FilePreferenceMapper`: turns a file record into a domain preference. The
    scope follows the record's kind, `fromFile` is forced on, the type is looked
    up by its exact enum name and no persistent key is set. */
module FileMapper {
  import opened Common
  import opened PrefTypes
  import opened PrefKey
  import opened Domain
  import opened FileRecords

  /** `createBuilder` followed by the per-kind key, owner and scope and `build()`.
      An application record gets no owner. */
  function MapRecord(f: FilePref): (r: Result<Preference>)
    ensures r.Failure? <==> TypeByName(f.common.typeName).Failure?
    ensures r.Failure? ==> r.error == NotFound
    ensures r.Success? ==>
              && r.value.scope == Some(ScopeOfKind(KindOf(f)))
              && r.value.fromFile && r.value.pKey.None? && !HasPersistentKey(r.value)
              && r.value.key == f.key
              && (f.ApplicationPreference? ==> r.value.owner.None?)
              && (!f.ApplicationPreference? ==> r.value.owner == f.owner)
              && r.value.val == f.common.value && r.value.description == f.common.description
              && r.value.minValue == f.common.minimum && r.value.maxValue == f.common.maximum
              && r.value.prefType.Some? && f.common.typeName == Some(TypeName(r.value.prefType.value))
              && r.value.defValue.None? && r.value.groupName.None? && r.value.lastModifiedDt.None?
  {
    match TypeByName(f.common.typeName)
    case Failure(e) => Failure(e)
    case Success(t) =>
      var b := NewBuilder.(description := f.common.description, val := f.common.value, fromFile := true,
                           prefType := Some(t), minValue := f.common.minimum, maxValue := f.common.maximum);
      Success(Build(match f
        case ApplicationPreference(_, key) => b.(key := key, scope := Some(APPLICATION))
        case ModulePreference(_, owner, key) => b.(key := key, owner := owner, scope := Some(MODULE))
        case RolePreference(_, owner, key) => b.(key := key, owner := owner, scope := Some(ROLE))
        case UserPreference(_, owner, key) => b.(key := key, owner := owner, scope := Some(USER))))
  }

  /** `toDomain(source)`: null maps to null. */
  function ToDomain(source: Option<FilePref>): (r: Result<Option<Preference>>)
    ensures source.None? ==> r == Success(None)
    ensures source.Some? ==> (r.Success? <==> MapRecord(source.value).Success?)
    ensures source.Some? && r.Success? ==> r.value == Some(MapRecord(source.value).value)
  {
    match source
    case None => Success(None)
    case Some(f) =>
      match MapRecord(f)
      case Failure(e) => Failure(e)
      case Success(p) => Success(Some(p))
  }

  /** A record whose mapped preference has the record's own identity key: the
      application kind always, the other kinds when they name an owner. */
  predicate KeyPreserving(f: FilePref) {
    f.ApplicationPreference? || f.owner.Some?
  }

  /** The mapping keeps the identity key exactly for the key-preserving records:
      a module, role or user record without owner has the null owner in its own
      key but the ":APPLICATION:" sentinel in the mapped preference's key. */
  lemma {:induction false} MapRecordPreservesKey(f: FilePref)
    requires MapRecord(f).Success?
    ensures PrefKeyOf(MapRecord(f).value) == Success(KeyOf(MapRecord(f).value))
    ensures KeyOf(MapRecord(f).value) == FileKey(f) <==> KeyPreserving(f)
  {
    var p := MapRecord(f).value;
    var s := ScopeOfKind(KindOf(f));
    TripleInjective(Some(KeyOwner(p.owner)), p.key, Some(ScopeName(s)),
                    FileKey(f).fields[0], f.key, Some(ScopeName(s)));
  }

  /** Every kind maps to its own scope and every type name the enum knows is
      accepted, so a record with a known type always maps. */
  lemma MapRecordTotalOnKnownTypes(f: FilePref, t: PreferenceType)
    requires f.common.typeName == Some(TypeName(t))
    ensures MapRecord(f).Success? && MapRecord(f).value.prefType == Some(t)
  {
    TypeNameRoundTrip(t);
  }
}
