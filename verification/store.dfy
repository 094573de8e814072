/** The persistence port as implemented by `JpaPreferencePersistenceAdapter`
    over the `PreferenceEO` table: a map from persistent key to the row read
    back as a domain preference. */
module PrefStore {
  import opened Common
  import opened PrefTypes
  import opened Domain
  import opened TypeConverter

  type Store = map<string, Preference>

  /** Every row sits under its own, non-empty persistent key. */
  predicate Wf(store: Store) {
    forall k :: k in store ==> k != "" && store[k].pKey == Some(k)
  }

  /** The row written for `p` under persistent key `k`, as read back: the entity
      mapper copies every field, the type passes through the column codec and
      the auditing listener stamps the modification time. */
  function Persisted(p: Preference, k: string, now: int): (r: Preference)
    ensures PrefEquals(r, p) && r.pKey == Some(k) && r.lastModifiedDt == Some(now)
  {
    ColumnRoundTrip(p.prefType);
    p.(pKey := Some(k), prefType := ToEntityAttribute(ToDatabaseColumn(p.prefType)), lastModifiedDt := Some(now))
  }

  /** The persistent key `save` writes to: the preference's own when it has
      one, otherwise the one the database generates. */
  function SaveKey(p: Preference, newKey: string): string {
    if HasPersistentKey(p) then p.pKey.value else newKey
  }

  /** Writing `row` under persistent key `k` would give it the (key, owner) of
      another row. Under SQL semantics a null owner never collides. */
  predicate Clashes(store: Store, k: string, row: Preference) {
    row.owner.Some? && exists j :: j in store && j != k && store[j].owner == row.owner && store[j].key == row.key
  }

  /** `save(preference)`: with the persistent key of a stored row, that row is
      updated in place (the update mapping ignores the persistent key, so the
      row keeps its own); with a persistent key that is not stored, a new row
      carrying it is created; without one, a new row is created under the key
      the database generates, here `newKey`. The table's unique constraint on
      (key, owner) refuses a write that would give the row the key and owner
      of another row. Returns the new store and the saved row. */
  function Save(store: Store, p: Preference, newKey: string, now: int): (r: Result<(Store, Preference)>)
    requires Wf(store)
    requires !HasPersistentKey(p) ==> newKey != "" && newKey !in store
    ensures r.Failure? <==> Clashes(store, SaveKey(p, newKey), p)
    ensures r.Failure? ==> r.error == DataIntegrityViolation
    ensures r.Success? ==>
              var (s, saved) := r.value;
              && Wf(s)
              && (UniqueKeyOwner(store) ==> UniqueKeyOwner(s))
              && PrefEquals(saved, p) && saved.lastModifiedDt == Some(now)
              && saved.pKey == Some(SaveKey(p, newKey))
              && s == store[SaveKey(p, newKey) := saved]
              && (HasPersistentKey(p) && p.pKey.value in store ==> s.Keys == store.Keys)
              && (!(HasPersistentKey(p) && p.pKey.value in store) ==> |s| == |store| + 1)
  {
    var k := SaveKey(p, newKey);
    var row := Persisted(p, k, now);
    if Clashes(store, k, p) then Failure(DataIntegrityViolation)
    else
      SaveRefusesExactlyViolations(store, p, newKey, now);
      Success((store[k := row], row))
  }

  /** On a store that meets the unique constraint, a save is refused exactly
      when the store it would produce breaks the constraint. */
  lemma SaveRefusesExactlyViolations(store: Store, p: Preference, newKey: string, now: int)
    requires Wf(store) && (!HasPersistentKey(p) ==> newKey != "" && newKey !in store)
    ensures var k := SaveKey(p, newKey);
            UniqueKeyOwner(store) ==>
              (Clashes(store, k, p) <==> !UniqueKeyOwner(store[k := Persisted(p, k, now)]))
  {
    var k := SaveKey(p, newKey);
    var row := Persisted(p, k, now);
    var s := store[k := row];
    if UniqueKeyOwner(store) && Clashes(store, k, p) {
      var j :| j in store && j != k && store[j].owner == p.owner && store[j].key == p.key;
      assert s[j] == store[j] && s[k] == row;
    }
    if UniqueKeyOwner(store) && !Clashes(store, k, p) {
      forall k1, k2 | k1 in s && k2 in s && k1 != k2 && s[k1].owner.Some? && s[k2].owner.Some?
        ensures s[k1].key != s[k2].key || s[k1].owner != s[k2].owner
      {
        if k1 == k {
          assert s[k2] == store[k2];
        } else if k2 == k {
          assert s[k1] == store[k1];
        }
      }
    }
  }

  /** `delete(preference)`: removes the row with the preference's persistent key;
      without a persistent key, or when no such row exists, nothing happens. */
  function Delete(store: Store, p: Preference): (r: Store)
    requires Wf(store)
    ensures Wf(r)
    ensures !HasPersistentKey(p) || p.pKey.value !in store ==> r == store
    ensures HasPersistentKey(p) && p.pKey.value in store ==>
              && r.Keys == store.Keys - {p.pKey.value}
              && |r| == |store| - 1
              && forall k :: k in r ==> r[k] == store[k]
  {
    if HasPersistentKey(p) && p.pKey.value in store then store - {p.pKey.value} else store
  }

  /** `findBypKey(pKey)`. */
  function FindBypKey(store: Store, pKey: string): (r: Option<Preference>)
    ensures r.Some? <==> pKey in store
    ensures r.Some? ==> r.value == store[pKey]
  {
    if pKey in store then Some(store[pKey]) else None
  }

  /** Saving a new preference fails only on the unique constraint; a saved
      row reads back as saved, and every other row reads as before. */
  lemma FindAfterSave(store: Store, p: Preference, newKey: string, now: int, other: string)
    requires Wf(store) && newKey != "" && newKey !in store
    ensures Save(store, p, newKey, now).Failure? <==> Clashes(store, SaveKey(p, newKey), p)
    ensures Save(store, p, newKey, now).Success? ==>
              var (s, saved) := Save(store, p, newKey, now).value;
              && FindBypKey(s, saved.pKey.value) == Some(saved)
              && (other != saved.pKey.value ==> FindBypKey(s, other) == FindBypKey(store, other))
  {
  }

  /** After deleting a stored row it can no longer be found; deleting twice is
      the same as deleting once. */
  lemma FindAfterDelete(store: Store, p: Preference)
    requires Wf(store) && HasPersistentKey(p)
    ensures FindBypKey(Delete(store, p), p.pKey.value).None?
    ensures Delete(Delete(store, p), p) == Delete(store, p)
  {
  }

  /** The derived queries compare each parameter with `=`, and a null
      parameter with `IS NULL`, so both sides are compared as nullable values. */
  predicate Matches(p: Preference, owner: NStr, scope: Option<Scope>, key: NStr) {
    p.owner == owner && p.scope == scope && p.key == key
  }

  function MatchingKeys(store: Store, owner: NStr, scope: Option<Scope>, key: NStr): set<string> {
    set k | k in store && Matches(store[k], owner, scope, key)
  }

  /** `findByOwnerAndScopeAndKey`: an optional single result, which fails when
      more than one row matches. */
  function FindByOwnerAndScopeAndKey(store: Store, owner: NStr, scope: Option<Scope>, key: NStr): (r: Result<Option<Preference>>)
    ensures r.Failure? <==> |MatchingKeys(store, owner, scope, key)| > 1
    ensures r.Failure? ==> r.error == IncorrectResultSize
    ensures r == Success(None) <==> forall k :: k in store ==> !Matches(store[k], owner, scope, key)
    ensures r.Success? && r.value.Some? ==>
              exists k :: k in store && store[k] == r.value.value && Matches(r.value.value, owner, scope, key)
  {
    var ks := MatchingKeys(store, owner, scope, key);
    if |ks| == 0 then
      assert forall k :: k in store && Matches(store[k], owner, scope, key) ==> k in ks;
      Success(None)
    else if |ks| == 1 then
      var k := TheOnly(ks);
      Success(Some(store[k]))
    else Failure(IncorrectResultSize)
  }

  /** The element of a singleton set. */
  function TheOnly(ks: set<string>): (k: string)
    requires |ks| == 1
    ensures ks == {k}
  {
    var k :| k in ks;
    assert |ks - {k}| == 0;
    k
  }

  /** `findByOwnerAndScope`: the rows of one owner and scope (in no particular order). */
  function FindByOwnerAndScope(store: Store, owner: NStr, scope: Option<Scope>): (r: set<Preference>)
    ensures forall p :: p in r <==> exists k :: k in store && store[k] == p && p.owner == owner && p.scope == scope
  {
    set k | k in store && store[k].owner == owner && store[k].scope == scope :: store[k]
  }

  /** `findByOwnerAndScopeAndGroupName`: the rows of one owner, scope and group. */
  function FindByOwnerAndScopeAndGroupName(store: Store, owner: NStr, scope: Option<Scope>, groupName: NStr): (r: set<Preference>)
    ensures forall p :: p in r <==> p in FindByOwnerAndScope(store, owner, scope) && p.groupName == groupName
  {
    set k | k in store && store[k].owner == owner && store[k].scope == scope && store[k].groupName == groupName :: store[k]
  }

  /** The single-row query finds a row exactly when the owner-and-scope query
      holds a row with that key. */
  lemma KeyQueryRefinesScopeQuery(store: Store, owner: NStr, scope: Option<Scope>, key: NStr)
    ensures FindByOwnerAndScopeAndKey(store, owner, scope, key) == Success(None)
            <==> forall p :: p in FindByOwnerAndScope(store, owner, scope) ==> p.key != key
    ensures FindByOwnerAndScopeAndKey(store, owner, scope, key).Success? &&
            FindByOwnerAndScopeAndKey(store, owner, scope, key).value.Some? ==>
              FindByOwnerAndScopeAndKey(store, owner, scope, key).value.value in FindByOwnerAndScope(store, owner, scope)
  {

  }

  /** `findAll()` as a list: `rows` lists every row of the store exactly once. */
  predicate IsListing(rows: seq<Preference>, store: Store) {
    && (forall i :: 0 <= i < |rows| ==> rows[i].pKey.Some? && rows[i].pKey.value in store && store[rows[i].pKey.value] == rows[i])
    && (forall k :: k in store ==> exists i :: 0 <= i < |rows| && rows[i].pKey == Some(k))
    && (forall i, j :: 0 <= i < j < |rows| ==> rows[i].pKey != rows[j].pKey)
  }

  // ------------------------------------------------------------ entity constraints

  const LengthKey: nat := 60
  const LengthOwner: nat := 60
  const LengthDescription: nat := 255
  const LengthValue: nat := 4096
  const LengthGroup: nat := 36

  predicate FitsIn(s: NStr, n: nat) {
    s.None? || |s.value| <= n
  }

  /** The Bean Validation and column constraints of `PreferenceEO`: a non-blank
      key of at most 60 characters, owner at most 60, description at most 255,
      the four values at most 4096, group name at most 36, scope and type set. */
  predicate EntityValid(p: Preference) {
    && HasText(p.key) && |p.key.value| <= LengthKey
    && FitsIn(p.owner, LengthOwner) && FitsIn(p.description, LengthDescription)
    && FitsIn(p.val, LengthValue) && FitsIn(p.defValue, LengthValue)
    && FitsIn(p.minValue, LengthValue) && FitsIn(p.maxValue, LengthValue)
    && FitsIn(p.groupName, LengthGroup)
    && p.scope.Some? && p.prefType.Some?
  }

  /** The table's unique constraint on (C_KEY, C_OWNER). Scope is not part of
      it, and under SQL semantics two rows with a null owner never collide. */
  predicate UniqueKeyOwner(store: Store) {
    forall k1, k2 :: k1 in store && k2 in store && k1 != k2 && store[k1].owner.Some? && store[k2].owner.Some?
      ==> store[k1].key != store[k2].key || store[k1].owner != store[k2].owner
  }

  /** A valid row always has an identity key with a key part. */
  lemma ValidRowHasIdentity(p: Preference)
    requires EntityValid(p)
    ensures PrefKeyOf(p).Success? && PrefKeyOf(p).value.fields[1] == p.key && p.key.Some?
  {
  }

  /** The unique constraint is stricter than identity for owned rows (two rows
      differing only in scope have different identities but are refused) and
      looser for ownerless ones (two ownerless rows with one key and scope share
      an identity but are accepted). */
  lemma UniqueConstraintVersusIdentity(p: Preference, q: Preference)
    requires p.key.Some? && p.owner.Some? && p.scope == Some(MODULE)
    requires q == p.(pKey := Some("b"), scope := Some(ROLE))
    ensures KeyOf(p.(pKey := Some("a"))) != KeyOf(q)
    ensures !UniqueKeyOwner(map["a" := p.(pKey := Some("a")), "b" := q])
    ensures var a := p.(pKey := Some("a"), owner := None);
            var b := a.(pKey := Some("b"));
            && UniqueKeyOwner(map["a" := a, "b" := b])
            && KeyOf(a) == KeyOf(b)
  {
    KeyOfInjective(p.(pKey := Some("a")), q);
    var m := map["a" := p.(pKey := Some("a")), "b" := q];
    assert "a" in m && "b" in m && m["a"].key == m["b"].key && m["a"].owner == m["b"].owner;
  }

  /** Under the unique constraint a query with a non-null owner never sees more
      than one row, so the single-result lookup cannot fail. */
  lemma OwnedLookupIsUnique(store: Store, owner: NStr, scope: Option<Scope>, key: NStr)
    requires UniqueKeyOwner(store) && owner.Some?
    ensures FindByOwnerAndScopeAndKey(store, owner, scope, key).Success?
  {
    var ks := MatchingKeys(store, owner, scope, key);
    if |ks| > 0 {
      var k1 :| k1 in ks;
      assert ks == {k1};
    }
  }
}
