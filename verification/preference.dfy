/** The persistence-agnostic domain record `Preference`, its builder, its
    identity key and its equality. The JPA entity `PreferenceEO` carries the
    same fields (its persistent key in place of `pKey`), builds the same way and
    derives its key with the same rule, so it is represented by this record too. */
module Domain {
  import opened Common
  import opened PrefTypes
  import opened PrefKey

  datatype Preference = Preference(
    pKey: NStr,
    key: NStr,
    owner: NStr,
    description: NStr,
    val: NStr,
    defValue: NStr,
    minValue: NStr,
    maxValue: NStr,
    groupName: NStr,
    scope: Option<Scope>,
    prefType: Option<PreferenceType>,
    fromFile: bool,
    lastModifiedDt: Option<int>)

  const DefaultGroup: string := "GLOBAL"

  /** `new Preference()`: every reference null except the "GLOBAL" group name. */
  const NewPreference: Preference :=
    Preference(None, None, None, None, None, None, None, None, Some(DefaultGroup), None, None, false, None)

  /** The builder holds the same fields; `newBuilder()` starts with all of them
      null, the group name included. */
  type Builder = Preference

  const NewBuilder: Builder :=
    Preference(None, None, None, None, None, None, None, None, None, None, None, false, None)

  /** `hasPersistentKey()`: neither a null nor an empty key counts. */
  predicate HasPersistentKey(p: Preference)
    ensures p.pKey.None? ==> !HasPersistentKey(p)
    ensures p.pKey == Some("") ==> !HasPersistentKey(p)
    ensures HasPersistentKey(p) ==> p.pKey.Some? && |p.pKey.value| > 0
  {
    NonEmpty(p.pKey)
  }

  /** `build()`: copies every builder field, except that an empty persistent key
      is left null. */
  function Build(b: Builder): (p: Preference)
    ensures HasPersistentKey(p) <==> NonEmpty(b.pKey)
    ensures p.pKey.Some? ==> p.pKey == b.pKey
    ensures !NonEmpty(b.pKey) ==> p.pKey.None?
    ensures p.(pKey := b.pKey) == b
  {
    if NonEmpty(b.pKey) then b else b.(pKey := None)
  }

  /** The owner component of the identity key: a null owner becomes the sentinel. */
  function KeyOwner(owner: NStr): string {
    if owner.None? then ApplicationOwner else owner.value
  }

  function ScopeNameOf(scope: Option<Scope>): NStr {
    if scope.None? then None else Some(ScopeName(scope.value))
  }

  /** The tuple `getPrefKey()` builds; `PrefKeyOf` adds the null-scope failure. */
  function KeyOf(p: Preference): PreferenceKey {
    Triple(Some(KeyOwner(p.owner)), p.key, ScopeNameOf(p.scope))
  }

  /** `getPrefKey()`: `(owner == null ? ":APPLICATION:" : owner, key, scope.name())`;
      a null scope is dereferenced. */
  function PrefKeyOf(p: Preference): (r: Result<PreferenceKey>)
    ensures r.Failure? <==> p.scope.None?
    ensures r.Failure? ==> r.error == NullPointer
    ensures r.Success? ==> r.value.fields == [Some(KeyOwner(p.owner)), p.key, Some(ScopeName(p.scope.value))]
  {
    if p.scope.None? then Failure(NullPointer) else Success(KeyOf(p))
  }

  /** `equals`: every field except `pKey` and `lastModifiedDt`. */
  predicate PrefEquals(a: Preference, b: Preference) {
    && a.fromFile == b.fromFile && a.key == b.key && a.owner == b.owner
    && a.description == b.description && a.scope == b.scope && a.val == b.val
    && a.defValue == b.defValue && a.minValue == b.minValue && a.maxValue == b.maxValue
    && a.groupName == b.groupName && a.prefType == b.prefType
  }

  /** The record with the two fields `equals` ignores cleared. */
  function Erased(p: Preference): Preference {
    p.(pKey := None, lastModifiedDt := None)
  }

  /** `equals` is equality up to `pKey` and `lastModifiedDt`: it ignores those two
      and sees every other field, `fromFile` included. */
  lemma PrefEqualsIgnoresOnlyKeyAndTimestamp(a: Preference, b: Preference)
    ensures PrefEquals(a, b) <==> Erased(a) == Erased(b)
    ensures PrefEquals(a, a.(pKey := b.pKey, lastModifiedDt := b.lastModifiedDt))
    ensures !PrefEquals(a, a.(fromFile := !a.fromFile))
  {
  }

  /** Two preferences with a scope have equal keys exactly when their normalised
      owners, keys and scopes agree. */
  lemma KeyOfInjective(a: Preference, b: Preference)
    requires a.scope.Some? && b.scope.Some?
    ensures KeyOf(a) == KeyOf(b)
            <==> KeyOwner(a.owner) == KeyOwner(b.owner) && a.key == b.key && a.scope == b.scope
  {
    TripleInjective(Some(KeyOwner(a.owner)), a.key, ScopeNameOf(a.scope),
                    Some(KeyOwner(b.owner)), b.key, ScopeNameOf(b.scope));
    if ScopeNameOf(a.scope) == ScopeNameOf(b.scope) {
      ScopeNameInjective(a.scope.value, b.scope.value);
    }
  }

  /** The normalisation identifies exactly one pair of distinct owners: a null
      owner and the literal ":APPLICATION:". */
  lemma KeyOwnerCollision(o1: NStr, o2: NStr)
    ensures KeyOwner(o1) == KeyOwner(o2)
            <==> o1 == o2 || (o1.None? && o2 == Some(ApplicationOwner)) || (o2.None? && o1 == Some(ApplicationOwner))
  {
  }

  /** The no-argument constructor defaults the group to "GLOBAL"; a built
      preference takes the builder's group name, null when it was never set. */
  lemma GroupNameDefaults(b: Builder)
    ensures NewPreference.groupName == Some(DefaultGroup)
    ensures Build(b).groupName == b.groupName
    ensures Build(NewBuilder).groupName.None?
  {
  }
}
