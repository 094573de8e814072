/** `PreferencesServiceImpl`: CRUD over the store with existence and
    persistent-key rules, a USER-scope access guard on the finders, and the
    one-way seed of file definitions into the store. Every public operation
    runs in one transaction, so a failing call returns `Failure` and leaves
    the service as it was. Published events are appended to a log. */
module PreferencesService {
  import opened Common
  import opened PrefTypes
  import opened PrefKey
  import opened Domain
  import opened FileRecords
  import opened FileLoader
  import opened FileMapper
  import opened PrefStore

  datatype EventType = CREATED | UPDATED | DELETED

  datatype PreferencesEvent = PreferencesEvent(pref: Preference, eventType: EventType)

  datatype Service = Service(store: Store, events: seq<PreferencesEvent>)

  /** The store is well formed and meets the table's unique constraint. */
  predicate Valid(svc: Service) {
    Wf(svc.store) && UniqueKeyOwner(svc.store)
  }

  /** `saveInternal`: save through the port, then publish an event for the
      saved row. A save the unique constraint refuses fails the call. */
  function SaveInternal(svc: Service, p: Preference, newKey: string, now: int, t: EventType): (r: Result<(Service, Preference)>)
    requires Valid(svc)
    requires !HasPersistentKey(p) ==> newKey != "" && newKey !in svc.store
    ensures r.Failure? <==> Clashes(svc.store, SaveKey(p, newKey), p)
    ensures r.Failure? ==> r.error == DataIntegrityViolation
    ensures r.Success? ==>
              && Valid(r.value.0)
              && Save(svc.store, p, newKey, now) == Success((r.value.0.store, r.value.1))
              && r.value.0.events == svc.events + [PreferencesEvent(r.value.1, t)]
  {
    match Save(svc.store, p, newKey, now)
    case Failure(e) => Failure(e)
    case Success((store, saved)) => Success((Service(store, svc.events + [PreferencesEvent(saved, t)]), saved))
  }

  // ------------------------------------------------------------------ finders

  /** `findByPKeyInternal`: the row or NotFound. */
  function FindByPKeyInternal(svc: Service, pKey: string): (r: Result<Preference>)
    ensures r.Success? <==> pKey in svc.store
    ensures r.Failure? ==> r.error == NotFound
    ensures r.Success? ==> r.value == svc.store[pKey]
  {
    match FindBypKey(svc.store, pKey)
    case None => Failure(NotFound)
    case Some(p) => Success(p)
  }

  /** `findByPKey`: the service is `@Validated`, so a `@NotBlank` argument
      that is null or blank is refused before the body runs. */
  function FindByPKey(svc: Service, pKey: NStr): (r: Result<Preference>)
    ensures !NotBlank(pKey) ==> r == Failure(ConstraintViolation)
    ensures r.Success? <==> NotBlank(pKey) && pKey.value in svc.store
    ensures NotBlank(pKey) && r.Failure? ==> r.error == NotFound
    ensures r.Success? ==> r.value == svc.store[pKey.value]
  {
    if !NotBlank(pKey) then Failure(ConstraintViolation) else FindByPKeyInternal(svc, pKey.value)
  }

  /** `ensureUserPreferenceAccess`: USER scope needs a non-empty owner. */
  predicate AccessDenied(owner: NStr, scope: Scope)
    ensures AccessDenied(owner, scope) ==> scope == USER && !HasText(owner)
  {
    !NonEmpty(owner) && scope == USER
  }

  /** The guard tests emptiness, not text: a blank owner passes it. */
  lemma BlankOwnerPassesGuard()
    ensures !HasText(Some(" ")) && !AccessDenied(Some(" "), USER)
  {
    assert Some(" ").value[0] == ' ';
  }

  /** `findForOwnerAndScope`. */
  function FindForOwnerAndScope(svc: Service, owner: NStr, scope: Scope): (r: Result<set<Preference>>)
    ensures r.Failure? <==> AccessDenied(owner, scope)
    ensures r.Failure? ==> r.error == NotAuthorized
    ensures r.Success? ==> forall p :: p in r.value <==> p in svc.store.Values && p.owner == owner && p.scope == Some(scope)
  {
    if AccessDenied(owner, scope) then Failure(NotAuthorized)
    else Success(FindByOwnerAndScope(svc.store, owner, Some(scope)))
  }

  /** `findForOwnerAndScopeAndKey`: the `@NotBlank` key is validated first,
      then the access guard runs. */
  function FindForOwnerAndScopeAndKey(svc: Service, owner: NStr, scope: Scope, key: NStr): (r: Result<Option<Preference>>)
    ensures !NotBlank(key) ==> r == Failure(ConstraintViolation)
    ensures NotBlank(key) && AccessDenied(owner, scope) ==> r == Failure(NotAuthorized)
    ensures NotBlank(key) && !AccessDenied(owner, scope) ==> r == FindByOwnerAndScopeAndKey(svc.store, owner, Some(scope), key)
  {
    if !NotBlank(key) then Failure(ConstraintViolation)
    else if AccessDenied(owner, scope) then Failure(NotAuthorized)
    else FindByOwnerAndScopeAndKey(svc.store, owner, Some(scope), key)
  }

  /** `findForScopeOwnerGroupName`: the `@NotBlank` group name is validated
      first, then the access guard runs. */
  function FindForScopeOwnerGroupName(svc: Service, owner: NStr, scope: Scope, groupName: NStr): (r: Result<set<Preference>>)
    ensures r.Failure? <==> !NotBlank(groupName) || AccessDenied(owner, scope)
    ensures !NotBlank(groupName) ==> r == Failure(ConstraintViolation)
    ensures NotBlank(groupName) && r.Failure? ==> r.error == NotAuthorized
    ensures r.Success? ==> forall p :: p in r.value <==>
              p in svc.store.Values && p.owner == owner && p.scope == Some(scope) && p.groupName == groupName
  {
    if !NotBlank(groupName) then Failure(ConstraintViolation)
    else if AccessDenied(owner, scope) then Failure(NotAuthorized)
    else Success(FindByOwnerAndScopeAndGroupName(svc.store, owner, Some(scope), groupName))
  }

  /** `existsForOwnerAndScopeAndKey`: the same lookup without the access
      guard, after the `@NotBlank` key is validated. */
  function ExistsForOwnerAndScopeAndKey(svc: Service, owner: NStr, scope: Scope, key: NStr): (r: Result<bool>)
    ensures !NotBlank(key) ==> r == Failure(ConstraintViolation)
    ensures r.Failure? <==> !NotBlank(key) || |MatchingKeys(svc.store, owner, Some(scope), key)| > 1
    ensures NotBlank(key) && r.Failure? ==> r.error == IncorrectResultSize
    ensures r.Success? ==> (r.value <==> exists k :: k in svc.store && Matches(svc.store[k], owner, Some(scope), key))
  {
    if !NotBlank(key) then Failure(ConstraintViolation)
    else match FindByOwnerAndScopeAndKey(svc.store, owner, Some(scope), key)
      case Failure(e) => Failure(e)
      case Success(found) => Success(found.Some?)
  }

  /** The guard covers exactly the three finders: for a USER query without an
      owner, but with arguments that pass validation, they refuse, while the
      existence check answers from the store. Validation comes before the
      guard: with a blank key or group name the refusal is the validator's. */
  lemma GuardCoversFindersOnly(svc: Service, owner: NStr, key: NStr, groupName: NStr)
    requires !NonEmpty(owner)
    ensures FindForOwnerAndScope(svc, owner, USER) == Failure(NotAuthorized)
    ensures NotBlank(key) ==> FindForOwnerAndScopeAndKey(svc, owner, USER, key) == Failure(NotAuthorized)
    ensures NotBlank(groupName) ==> FindForScopeOwnerGroupName(svc, owner, USER, groupName) == Failure(NotAuthorized)
    ensures NotBlank(key) ==>
              ExistsForOwnerAndScopeAndKey(svc, owner, USER, key) ==
              (match FindByOwnerAndScopeAndKey(svc.store, owner, Some(USER), key)
               case Failure(e) => Failure(e)
               case Success(found) => Success(found.Some?))
    ensures !NotBlank(key) ==> FindForOwnerAndScopeAndKey(svc, owner, USER, key) == Failure(ConstraintViolation)
    ensures !NotBlank(groupName) ==> FindForScopeOwnerGroupName(svc, owner, USER, groupName) == Failure(ConstraintViolation)
  {
  }

  /** Outside the denied case the finder and the existence check agree. */
  lemma ExistsAgreesWithFind(svc: Service, owner: NStr, scope: Scope, key: NStr)
    requires !AccessDenied(owner, scope)
    ensures FindForOwnerAndScopeAndKey(svc, owner, scope, key).Success?
            <==> ExistsForOwnerAndScopeAndKey(svc, owner, scope, key).Success?
    ensures FindForOwnerAndScopeAndKey(svc, owner, scope, key).Success? ==>
              (FindForOwnerAndScopeAndKey(svc, owner, scope, key).value.Some?
               <==> ExistsForOwnerAndScopeAndKey(svc, owner, scope, key).value)
  {
  }

  // ------------------------------------------------------------------ CRUD

  /** `create`: refuses a preference that already has a persistent key, then
      one whose (owner, scope, key) is already stored (`verifyDoesNotExist`);
      otherwise saves it under a newly generated key and publishes CREATED.
      The save itself fails when another scope already holds a row with the
      same key and owner. */
  function Create(svc: Service, p: Preference, newKey: string, now: int): (r: Result<(Service, Preference)>)
    requires Valid(svc) && newKey != "" && newKey !in svc.store
    ensures r.Success? <==>
              && !HasPersistentKey(p) && MatchingKeys(svc.store, p.owner, p.scope, p.key) == {}
              && !Clashes(svc.store, newKey, p)
    ensures HasPersistentKey(p) || |MatchingKeys(svc.store, p.owner, p.scope, p.key)| == 1 ==> r == Failure(ResourceExists)
    ensures !HasPersistentKey(p) && |MatchingKeys(svc.store, p.owner, p.scope, p.key)| > 1 ==> r == Failure(IncorrectResultSize)
    ensures !HasPersistentKey(p) && MatchingKeys(svc.store, p.owner, p.scope, p.key) == {} && Clashes(svc.store, newKey, p) ==>
              r == Failure(DataIntegrityViolation)
    ensures r.Success? ==>
              var (s, saved) := r.value;
              && Valid(s)
              && saved.pKey == Some(newKey) && PrefEquals(saved, p) && saved.lastModifiedDt == Some(now)
              && s.store == svc.store[newKey := saved]
              && s.events == svc.events + [PreferencesEvent(saved, CREATED)]
  {
    if HasPersistentKey(p) then Failure(ResourceExists)
    else match FindByOwnerAndScopeAndKey(svc.store, p.owner, p.scope, p.key)
      case Failure(e) => Failure(e)
      case Success(found) =>
        if found.Some? then Failure(ResourceExists)
        else
          assert MatchingKeys(svc.store, p.owner, p.scope, p.key) == {};
          SaveInternal(svc, p, newKey, now, CREATED)
  }

  /** Scope is not part of the unique constraint: a ROLE preference cannot be
      created beside a MODULE row with the same key and owner, although
      `verifyDoesNotExist` finds nothing for the ROLE scope. */
  lemma CreateRefusedAcrossScopes(svc: Service, m: Preference, newKey: string, now: int)
    requires Valid(svc) && newKey != "" && newKey !in svc.store
    requires "m" in svc.store && svc.store["m"] == m
    requires m.owner.Some? && m.scope == Some(MODULE)
    requires forall k :: k in svc.store ==> svc.store[k].scope != Some(ROLE)
    ensures Create(svc, m.(pKey := None, scope := Some(ROLE)), newKey, now) == Failure(DataIntegrityViolation)
  {
    var p := m.(pKey := None, scope := Some(ROLE));
    assert MatchingKeys(svc.store, p.owner, p.scope, p.key) == {};
    assert Clashes(svc.store, newKey, p) by {
      assert "m" in svc.store && "m" != newKey && svc.store["m"].owner == p.owner && svc.store["m"].key == p.key;
    }
  }

  /** Creating the same preference twice: the second attempt finds the first
      one's row and is refused. */
  lemma CreateIsNotRepeatable(svc: Service, p: Preference, k1: string, k2: string, now: int)
    requires Valid(svc) && k1 != "" && k1 !in svc.store
    requires Create(svc, p, k1, now).Success?
    requires var s := Create(svc, p, k1, now).value.0; k2 != "" && k2 !in s.store
    ensures Create(Create(svc, p, k1, now).value.0, p, k2, now) == Failure(ResourceExists)
  {
    var s := Create(svc, p, k1, now).value.0;
    var ks := MatchingKeys(s.store, p.owner, p.scope, p.key);
    assert k1 in ks;
    assert ks == {k1} by {
      forall k | k in ks ensures k == k1 {
      }
    }
  }

  /** `update`: the target row must exist; the argument is saved under the
      target's persistent key and UPDATED is published. Every other field,
      key, owner, scope and `fromFile` included, comes from the argument, so
      the save fails when that key and owner belong to another row. */
  function Update(svc: Service, pKey: NStr, p: Preference, now: int): (r: Result<(Service, Preference)>)
    requires Valid(svc)
    ensures !NotBlank(pKey) ==> r == Failure(ConstraintViolation)
    ensures r.Success? <==> NotBlank(pKey) && pKey.value in svc.store && !Clashes(svc.store, pKey.value, p)
    ensures NotBlank(pKey) && pKey.value !in svc.store ==> r == Failure(NotFound)
    ensures NotBlank(pKey) && pKey.value in svc.store && Clashes(svc.store, pKey.value, p) ==> r == Failure(DataIntegrityViolation)
    ensures r.Success? ==>
              var (s, saved) := r.value;
              && Valid(s)
              && saved.pKey == pKey && PrefEquals(saved, p) && saved.lastModifiedDt == Some(now)
              && s.store == svc.store[pKey.value := saved] && s.store.Keys == svc.store.Keys
              && s.events == svc.events + [PreferencesEvent(saved, UPDATED)]
  {
    if !NotBlank(pKey) then Failure(ConstraintViolation)
    else match FindByPKeyInternal(svc, pKey.value)
      case Failure(e) => Failure(e)
      case Success(existing) =>
        SaveInternal(svc, p.(pKey := existing.pKey), "", now, UPDATED)
  }

  /** `delete`: the target row must exist; it is removed and DELETED is
      published with the row as it was. */
  function Delete(svc: Service, pKey: NStr): (r: Result<Service>)
    requires Valid(svc)
    ensures !NotBlank(pKey) ==> r == Failure(ConstraintViolation)
    ensures r.Success? <==> NotBlank(pKey) && pKey.value in svc.store
    ensures NotBlank(pKey) && r.Failure? ==> r.error == NotFound
    ensures r.Success? ==>
              && Valid(r.value)
              && r.value.store == svc.store - {pKey.value}
              && r.value.events == svc.events + [PreferencesEvent(svc.store[pKey.value], DELETED)]
  {
    if !NotBlank(pKey) then Failure(ConstraintViolation)
    else match FindByPKeyInternal(svc, pKey.value)
      case Failure(e) => Failure(e)
      case Success(existing) =>
        Success(Service(PrefStore.Delete(svc.store, existing), svc.events + [PreferencesEvent(existing, DELETED)]))
  }

  /** A stored row whose key is blank is out of reach: validation refuses
      every call naming it. Otherwise an update fails only on the unique
      constraint and then reads back as saved, and a deleted row can be
      neither read, updated nor deleted again. */
  lemma UpdateAndDeleteReadBack(svc: Service, pKey: NStr, p: Preference, now: int)
    requires Valid(svc) && pKey.Some? && pKey.value in svc.store
    ensures !NotBlank(pKey) ==>
              && FindByPKey(svc, pKey) == Failure(ConstraintViolation)
              && Update(svc, pKey, p, now) == Failure(ConstraintViolation)
              && Delete(svc, pKey) == Failure(ConstraintViolation)
    ensures NotBlank(pKey) ==> (Update(svc, pKey, p, now).Success? <==> !Clashes(svc.store, pKey.value, p))
    ensures Update(svc, pKey, p, now).Success? ==>
              FindByPKey(Update(svc, pKey, p, now).value.0, pKey) == Success(Update(svc, pKey, p, now).value.1)
    ensures NotBlank(pKey) ==>
              var s := Delete(svc, pKey).value;
              && FindByPKey(s, pKey) == Failure(NotFound)
              && Update(s, pKey, p, now) == Failure(NotFound)
              && Delete(s, pKey) == Failure(NotFound)
  {
  }

  // ------------------------------------------------------------------ merge

  /** Every row has a scope, so its identity key can be computed. */
  predicate AllScoped(rows: seq<Preference>) {
    forall i :: 0 <= i < |rows| ==> rows[i].scope.Some?
  }

  predicate DistinctIdentities(rows: seq<Preference>) {
    forall i, j :: 0 <= i < j < |rows| ==> KeyOf(rows[i]) != KeyOf(rows[j])
  }

  function RowKeys(rows: seq<Preference>): set<PreferenceKey> {
    set i | 0 <= i < |rows| :: KeyOf(rows[i])
  }

  /** The store-side counterparts of the three row predicates. */
  predicate StoreScoped(store: Store) {
    forall k :: k in store ==> store[k].scope.Some?
  }

  predicate StoreKeyInjective(store: Store) {
    forall k1, k2 :: k1 in store && k2 in store && k1 != k2 ==> KeyOf(store[k1]) != KeyOf(store[k2])
  }

  function StoreKeys(store: Store): set<PreferenceKey> {
    set k | k in store :: KeyOf(store[k])
  }

  /** A listing of the store has the store's scopes, identity clashes and
      identity keys. */
  lemma ListingTransfer(rows: seq<Preference>, store: Store)
    requires Wf(store) && IsListing(rows, store)
    ensures AllScoped(rows) <==> StoreScoped(store)
    ensures DistinctIdentities(rows) <==> StoreKeyInjective(store)
    ensures RowKeys(rows) == StoreKeys(store)
  {
    ListingScoped(rows, store);
    ListingDistinct(rows, store);
    ListingKeys(rows, store);
  }

  lemma ListingScoped(rows: seq<Preference>, store: Store)
    requires IsListing(rows, store)
    ensures AllScoped(rows) <==> StoreScoped(store)
  {
    if AllScoped(rows) {
      forall k | k in store ensures store[k].scope.Some? {
        var i :| 0 <= i < |rows| && rows[i].pKey == Some(k);
      }
    }
  }

  lemma ListingDistinct(rows: seq<Preference>, store: Store)
    requires IsListing(rows, store)
    ensures DistinctIdentities(rows) <==> StoreKeyInjective(store)
  {
    if DistinctIdentities(rows) {
      forall k1, k2 | k1 in store && k2 in store && k1 != k2 ensures KeyOf(store[k1]) != KeyOf(store[k2]) {
        var i :| 0 <= i < |rows| && rows[i].pKey == Some(k1);
        var j :| 0 <= j < |rows| && rows[j].pKey == Some(k2);
        if i < j { assert KeyOf(rows[i]) != KeyOf(rows[j]); } else { assert KeyOf(rows[j]) != KeyOf(rows[i]); }
      }
    }
    if StoreKeyInjective(store) {
      forall i, j | 0 <= i < j < |rows| ensures KeyOf(rows[i]) != KeyOf(rows[j]) {
        assert rows[i].pKey != rows[j].pKey;
      }
    }
  }

  lemma ListingKeys(rows: seq<Preference>, store: Store)
    requires IsListing(rows, store)
    ensures RowKeys(rows) == StoreKeys(store)
  {
    forall q | q in StoreKeys(store) ensures q in RowKeys(rows) {
      var k :| k in store && KeyOf(store[k]) == q;
      var i :| 0 <= i < |rows| && rows[i].pKey == Some(k);
    }
    forall q | q in RowKeys(rows) ensures q in StoreKeys(store) {
      var i :| 0 <= i < |rows| && KeyOf(rows[i]) == q;
      assert KeyOf(store[rows[i].pKey.value]) == q;
    }
  }

  lemma RowsSnoc(rows: seq<Preference>)
    requires rows != []
    ensures var n := |rows| - 1;
            && (AllScoped(rows) <==> AllScoped(rows[..n]) && rows[n].scope.Some?)
            && (DistinctIdentities(rows) <==> DistinctIdentities(rows[..n]) && KeyOf(rows[n]) !in RowKeys(rows[..n]))
            && RowKeys(rows) == RowKeys(rows[..n]) + {KeyOf(rows[n])}
  {
    RowsSnocScoped(rows);
    RowsSnocKeys(rows);
    RowsSnocDistinct(rows);
  }

  lemma RowsSnocScoped(rows: seq<Preference>)
    requires rows != []
    ensures var n := |rows| - 1; AllScoped(rows) <==> AllScoped(rows[..n]) && rows[n].scope.Some?
  {
    var n := |rows| - 1;
    assert forall i :: 0 <= i < n ==> rows[..n][i] == rows[i];
  }

  lemma RowsSnocKeys(rows: seq<Preference>)
    requires rows != []
    ensures var n := |rows| - 1; RowKeys(rows) == RowKeys(rows[..n]) + {KeyOf(rows[n])}
  {
    var n := |rows| - 1;
    var init := rows[..n];
    forall q | q in RowKeys(rows) ensures q in RowKeys(init) + {KeyOf(rows[n])} {
      var i :| 0 <= i < |rows| && KeyOf(rows[i]) == q;
      if i < n { assert KeyOf(init[i]) == q; }
    }
    forall q | q in RowKeys(init) ensures q in RowKeys(rows) {
      var i :| 0 <= i < |init| && KeyOf(init[i]) == q;
      assert KeyOf(rows[i]) == q;
    }
  }

  lemma RowsSnocDistinct(rows: seq<Preference>)
    requires rows != []
    ensures var n := |rows| - 1;
            DistinctIdentities(rows) <==> DistinctIdentities(rows[..n]) && KeyOf(rows[n]) !in RowKeys(rows[..n])
  {
    var n := |rows| - 1;
    var init := rows[..n];
    if DistinctIdentities(init) && KeyOf(rows[n]) !in RowKeys(init) {
      forall i, j | 0 <= i < j < |rows| ensures KeyOf(rows[i]) != KeyOf(rows[j]) {
        if j == n { assert KeyOf(init[i]) in RowKeys(init); }
        else { assert KeyOf(init[i]) != KeyOf(init[j]); }
      }
    }
    if DistinctIdentities(rows) {
      forall i, j | 0 <= i < j < n ensures KeyOf(init[i]) != KeyOf(init[j]) {
        assert KeyOf(rows[i]) != KeyOf(rows[j]);
      }
      forall q | q in RowKeys(init) ensures q != KeyOf(rows[n]) {
        var i :| 0 <= i < |init| && KeyOf(init[i]) == q;
        assert KeyOf(rows[i]) != KeyOf(rows[n]);
      }
    }
  }

  /** `findAll().stream().collect(toMap(Preference::getPrefKey, p -> p))`:
      computing a row's key dereferences its scope, and a key seen twice makes
      the collector throw IllegalStateException. */
  function Snapshot(rows: seq<Preference>): (r: Result<map<PreferenceKey, Preference>>)
    ensures r.Success? <==> AllScoped(rows) && DistinctIdentities(rows)
    ensures r.Success? ==> r.value.Keys == RowKeys(rows)
    ensures r.Failure? ==> r.error == NullPointer || r.error == IllegalState
    ensures AllScoped(rows) && r.Failure? ==> r.error == IllegalState
    ensures DistinctIdentities(rows) && r.Failure? ==> r.error == NullPointer
    decreases |rows|
  {
    if rows == [] then Success(map[])
    else
      var n := |rows| - 1;
      RowsSnoc(rows);
      match Snapshot(rows[..n])
      case Failure(e) =>
        assert DistinctIdentities(rows) ==> DistinctIdentities(rows[..n]);
        Failure(e)
      case Success(m) =>
        match PrefKeyOf(rows[n])
        case Failure(e) => Failure(e)
        case Success(k) =>
          if k in m then Failure(IllegalState) else Success(m[k := rows[n]])
  }

  /** `newKeys[i]` is the key the database generates if `defs[i]` is inserted. */
  predicate FreshFor(newKeys: seq<string>, defs: seq<FilePref>, store: Store) {
    && |newKeys| == |defs|
    && (forall i :: 0 <= i < |newKeys| ==> newKeys[i] != "" && newKeys[i] !in store)
    && (forall i, j :: 0 <= i < j < |newKeys| ==> newKeys[i] != newKeys[j])
  }

  /** A file record the merge inserts: its identity is not in the snapshot. */
  predicate Pending(snap: set<PreferenceKey>, f: FilePref) {
    FileKey(f) !in snap
  }

  /** Every pending record maps to a domain preference. */
  predicate PendingMap(snap: set<PreferenceKey>, defs: seq<FilePref>) {
    forall i :: 0 <= i < |defs| && Pending(snap, defs[i]) ==> MapRecord(defs[i]).Success?
  }

  /** A record whose mapped row has an owner, and so falls under the unique
      constraint: application records are mapped without owner. */
  predicate OwnedRecord(f: FilePref) {
    !f.ApplicationPreference? && f.owner.Some?
  }

  /** Inserting the pending record `defs[i]` keeps the unique constraint: when
      it is owned, no stored row and no earlier pending owned record has its
      key and owner. */
  predicate StepUnique(store: Store, snap: set<PreferenceKey>, defs: seq<FilePref>, i: int)
    requires 0 <= i < |defs|
  {
    Pending(snap, defs[i]) && OwnedRecord(defs[i]) ==>
      && (forall k :: k in store ==> !(store[k].owner == defs[i].owner && store[k].key == defs[i].key))
      && (forall j :: 0 <= j < i && Pending(snap, defs[j]) && OwnedRecord(defs[j]) ==>
            !(defs[j].owner == defs[i].owner && defs[j].key == defs[i].key))
  }

  /** Every insert of the merge keeps the unique constraint. */
  predicate SeedUnique(store: Store, snap: set<PreferenceKey>, defs: seq<FilePref>) {
    forall i :: 0 <= i < |defs| ==> StepUnique(store, snap, defs, i)
  }

  /** `after` extends `before` (same rows under the same keys), and any new
      key is one of `keys`. */
  predicate GrowsOnlyBy(before: Store, after: Store, keys: seq<string>) {
    && (forall k :: k in before ==> k in after && after[k] == before[k])
    && (forall k :: k in after ==> k in before || k in keys)
  }

  /** The seeding loop of `reloadInitialPreferences` over the records in file
      order: a record whose key is in the snapshot is skipped, any other one is
      mapped and saved with a CREATED event; the first record whose type is
      unknown, or whose row the unique constraint refuses, aborts the whole
      transaction. */
  function SeedFrom(svc: Service, snap: set<PreferenceKey>, defs: seq<FilePref>, newKeys: seq<string>, now: int): (r: Result<Service>)
    requires Valid(svc) && FreshFor(newKeys, defs, svc.store)
    ensures r.Success? ==> PendingMap(snap, defs)
    ensures r.Failure? ==> r.error == NotFound || r.error == DataIntegrityViolation
    ensures PendingMap(snap, defs) && r.Failure? ==> r.error == DataIntegrityViolation
    ensures r.Success? ==> Valid(r.value) && GrowsOnlyBy(svc.store, r.value.store, newKeys)
    decreases |defs|
  {
    if defs == [] then Success(svc)
    else
      var n := |defs| - 1;
      assert FreshFor(newKeys[..n], defs[..n], svc.store);
      PendingMapSnoc(snap, defs);
      match SeedFrom(svc, snap, defs[..n], newKeys[..n], now)
      case Failure(e) => Failure(e)
      case Success(s) =>
        if !Pending(snap, defs[n]) then Success(s)
        else match MapRecord(defs[n])
          case Failure(e) => Failure(e)
          case Success(d) =>
            match SaveInternal(s, d, newKeys[n], now, CREATED)
            case Failure(e) => Failure(e)
            case Success((s', _)) => Success(s')
  }

  lemma PendingMapSnoc(snap: set<PreferenceKey>, defs: seq<FilePref>)
    requires defs != []
    ensures var n := |defs| - 1;
            PendingMap(snap, defs) <==> PendingMap(snap, defs[..n]) && (Pending(snap, defs[n]) ==> MapRecord(defs[n]).Success?)
  {
    var n := |defs| - 1;
    if PendingMap(snap, defs[..n]) {
      forall i | 0 <= i < n && Pending(snap, defs[i]) ensures MapRecord(defs[i]).Success? {
        assert defs[i] == defs[..n][i];
      }
    }
  }

  lemma SeedUniqueSnoc(store: Store, snap: set<PreferenceKey>, defs: seq<FilePref>)
    requires defs != []
    ensures var n := |defs| - 1;
            SeedUnique(store, snap, defs) <==> SeedUnique(store, snap, defs[..n]) && StepUnique(store, snap, defs, n)
  {
    var n := |defs| - 1;
    forall i | 0 <= i < n ensures StepUnique(store, snap, defs, i) <==> StepUnique(store, snap, defs[..n], i) {
      assert defs[..n][i] == defs[i];
      assert forall j :: 0 <= j < i ==> defs[..n][j] == defs[j];
    }
  }

  /** `reloadInitialPreferences()`: `rows` is what `findAll()` of the store
      returns, `defs` what `findAll()` of the file loader returns. Rows
      already stored are never touched; only the generated keys are added. */
  function ReloadInitialPreferences(svc: Service, defs: seq<FilePref>, rows: seq<Preference>, newKeys: seq<string>, now: int): (r: Result<Service>)
    requires Valid(svc) && FreshFor(newKeys, defs, svc.store)
    ensures r.Success? ==> Valid(r.value) && GrowsOnlyBy(svc.store, r.value.store, newKeys)
  {
    match Snapshot(rows)
    case Failure(e) => Failure(e)
    case Success(m) => SeedFrom(svc, m.Keys, defs, newKeys, now)
  }

  /** The rows the merge inserts: exactly one per pending record, the record's
      mapping under its generated key; no other key appears. */
  lemma {:induction false} SeedFromInserts(svc: Service, snap: set<PreferenceKey>, defs: seq<FilePref>, newKeys: seq<string>, now: int)
    requires Valid(svc) && FreshFor(newKeys, defs, svc.store)
    requires SeedFrom(svc, snap, defs, newKeys, now).Success?
    ensures var after := SeedFrom(svc, snap, defs, newKeys, now).value.store;
            && (forall i :: 0 <= i < |defs| && Pending(snap, defs[i]) ==>
                  newKeys[i] in after && after[newKeys[i]] == Persisted(MapRecord(defs[i]).value, newKeys[i], now))
            && (forall i :: 0 <= i < |defs| && !Pending(snap, defs[i]) ==> newKeys[i] !in after)
    decreases |defs|
  {
    if defs != [] {
      var n := |defs| - 1;
      assert FreshFor(newKeys[..n], defs[..n], svc.store);
      SeedFromInserts(svc, snap, defs[..n], newKeys[..n], now);
      var s := SeedFrom(svc, snap, defs[..n], newKeys[..n], now).value;
      var after := SeedFrom(svc, snap, defs, newKeys, now).value.store;
      forall i | 0 <= i < n
        ensures Pending(snap, defs[i]) ==> newKeys[i] in after && after[newKeys[i]] == Persisted(MapRecord(defs[i]).value, newKeys[i], now)
        ensures !Pending(snap, defs[i]) ==> newKeys[i] !in after
      {
        assert defs[i] == defs[..n][i] && newKeys[i] == newKeys[..n][i];
        assert newKeys[i] != newKeys[n];
      }
      if !Pending(snap, defs[n]) {
        assert newKeys[n] !in s.store;
      }
    }
  }

  /** The events the merge publishes: the log is extended, never rewritten,
      by one CREATED event per inserted row, each carrying that row, no two for
      the same row. */
  predicate OneCreatedPerInsert(before: Service, after: Service) {
    && |before.events| <= |after.events|
    && after.events[..|before.events|] == before.events
    && |after.events| - |before.events| == |after.store| - |before.store|
    && (forall j :: |before.events| <= j < |after.events| ==>
          && after.events[j].eventType == CREATED
          && after.events[j].pref.pKey.Some?
          && after.events[j].pref.pKey.value in after.store
          && after.events[j].pref.pKey.value !in before.store
          && after.store[after.events[j].pref.pKey.value] == after.events[j].pref)
    && (forall j1, j2 :: |before.events| <= j1 < j2 < |after.events| ==>
          after.events[j1].pref.pKey != after.events[j2].pref.pKey)
  }

  lemma {:induction false} SeedFromEvents(svc: Service, snap: set<PreferenceKey>, defs: seq<FilePref>, newKeys: seq<string>, now: int)
    requires Valid(svc) && FreshFor(newKeys, defs, svc.store)
    requires SeedFrom(svc, snap, defs, newKeys, now).Success?
    ensures OneCreatedPerInsert(svc, SeedFrom(svc, snap, defs, newKeys, now).value)
    decreases |defs|
  {
    if defs == [] {
      assert svc.events[..|svc.events|] == svc.events;
    } else {
      var n := |defs| - 1;
      assert FreshFor(newKeys[..n], defs[..n], svc.store);
      SeedFromEvents(svc, snap, defs[..n], newKeys[..n], now);
      var s := SeedFrom(svc, snap, defs[..n], newKeys[..n], now).value;
      if Pending(snap, defs[n]) {
        var saved := SaveInternal(s, MapRecord(defs[n]).value, newKeys[n], now, CREATED).value.1;
        OneCreatedStep(svc, s, newKeys[n], saved);
      }
    }
  }

  /** Inserting one new row with its CREATED event keeps the event accounting. */
  lemma OneCreatedStep(before: Service, mid: Service, k: string, row: Preference)
    requires OneCreatedPerInsert(before, mid)
    requires forall x :: x in before.store ==> x in mid.store
    requires k !in mid.store && row.pKey == Some(k)
    ensures OneCreatedPerInsert(before, Service(mid.store[k := row], mid.events + [PreferencesEvent(row, CREATED)]))
  {
    var after := Service(mid.store[k := row], mid.events + [PreferencesEvent(row, CREATED)]);
    var b := |before.events|;
    assert after.events[..b] == mid.events[..b];
    assert |after.store| == |mid.store| + 1;
    forall j | b <= j < |mid.events|
      ensures after.events[j] == mid.events[j] && after.events[j].pref.pKey.value != k
    {
    }
  }

  /** Running the merge a second time, on its own result and with the same
      records, inserts nothing, provided the records have pairwise distinct
      keys (which a successful load guarantees) and the mapping keeps every
      record's key. */
  lemma MergeIdempotent(svc: Service, defs: seq<FilePref>, rows: seq<Preference>, newKeys: seq<string>, now: int,
                        rows2: seq<Preference>, newKeys2: seq<string>, now2: int)
    requires Valid(svc) && IsListing(rows, svc.store) && FreshFor(newKeys, defs, svc.store)
    requires DistinctKeys(defs) && forall i :: 0 <= i < |defs| ==> KeyPreserving(defs[i])
    requires ReloadInitialPreferences(svc, defs, rows, newKeys, now).Success?
    requires var s1 := ReloadInitialPreferences(svc, defs, rows, newKeys, now).value;
             IsListing(rows2, s1.store) && FreshFor(newKeys2, defs, s1.store)
    ensures var s1 := ReloadInitialPreferences(svc, defs, rows, newKeys, now).value;
            ReloadInitialPreferences(s1, defs, rows2, newKeys2, now2) == Success(s1)
  {
    var snap := Snapshot(rows).value.Keys;
    var s1 := SeedFrom(svc, snap, defs, newKeys, now).value;
    ListingTransfer(rows, svc.store);
    ListingTransfer(rows2, s1.store);
    MergedStoreIdentities(svc, snap, defs, newKeys, now);
    var snap2 := Snapshot(rows2).value.Keys;
    SeedFromNothingPending(s1, snap2, defs, newKeys2, now2);
  }

  /** The key of a row the seeding loop added: generated for a pending record. */
  lemma NewKeyOrigin(svc: Service, snap: set<PreferenceKey>, defs: seq<FilePref>, newKeys: seq<string>, now: int, k: string)
    returns (i: int)
    requires Valid(svc) && FreshFor(newKeys, defs, svc.store)
    requires SeedFrom(svc, snap, defs, newKeys, now).Success?
    requires k in SeedFrom(svc, snap, defs, newKeys, now).value.store && k !in svc.store
    ensures 0 <= i < |defs| && Pending(snap, defs[i]) && newKeys[i] == k
  {
    SeedFromInserts(svc, snap, defs, newKeys, now);
    i :| 0 <= i < |newKeys| && newKeys[i] == k;
  }

  /** After a merge from the store's own snapshot, with distinct and
      key-preserving records, every stored row is scoped, no two rows share an
      identity, and every record's identity is stored. */
  lemma MergedStoreIdentities(svc: Service, snap: set<PreferenceKey>, defs: seq<FilePref>, newKeys: seq<string>, now: int)
    requires Valid(svc) && FreshFor(newKeys, defs, svc.store)
    requires StoreScoped(svc.store) && StoreKeyInjective(svc.store) && snap == StoreKeys(svc.store)
    requires DistinctKeys(defs) && forall i :: 0 <= i < |defs| ==> KeyPreserving(defs[i])
    requires SeedFrom(svc, snap, defs, newKeys, now).Success?
    ensures var after := SeedFrom(svc, snap, defs, newKeys, now).value.store;
            && StoreScoped(after) && StoreKeyInjective(after)
            && forall i :: 0 <= i < |defs| ==> FileKey(defs[i]) in StoreKeys(after)
  {
    var after := SeedFrom(svc, snap, defs, newKeys, now).value.store;
    SeedFromInserts(svc, snap, defs, newKeys, now);
    forall i | 0 <= i < |defs| && Pending(snap, defs[i])
      ensures after[newKeys[i]].scope.Some? && KeyOf(after[newKeys[i]]) == FileKey(defs[i])
    {
      MapRecordPreservesKey(defs[i]);
    }
    forall k | k in after ensures after[k].scope.Some? {
      if k !in svc.store {
        var i := NewKeyOrigin(svc, snap, defs, newKeys, now, k);
      }
    }
    forall k1, k2 | k1 in after && k2 in after && k1 != k2
      ensures KeyOf(after[k1]) != KeyOf(after[k2])
    {
      if k1 !in svc.store && k2 !in svc.store {
        var i := NewKeyOrigin(svc, snap, defs, newKeys, now, k1);
        var j := NewKeyOrigin(svc, snap, defs, newKeys, now, k2);
        if i < j { assert FileKey(defs[i]) != FileKey(defs[j]); }
        else { assert FileKey(defs[j]) != FileKey(defs[i]); }
      } else if k1 !in svc.store {
        var i := NewKeyOrigin(svc, snap, defs, newKeys, now, k1);
        assert KeyOf(svc.store[k2]) in StoreKeys(svc.store);
      } else if k2 !in svc.store {
        var j := NewKeyOrigin(svc, snap, defs, newKeys, now, k2);
        assert KeyOf(svc.store[k1]) in StoreKeys(svc.store);
      }
    }
    forall i | 0 <= i < |defs| ensures FileKey(defs[i]) in StoreKeys(after) {
      if Pending(snap, defs[i]) {
        assert KeyOf(after[newKeys[i]]) in StoreKeys(after);
      } else {
        var k :| k in svc.store && KeyOf(svc.store[k]) == FileKey(defs[i]);
        assert KeyOf(after[k]) in StoreKeys(after);
      }
    }
  }

  /** With every record already in the snapshot the seeding loop changes nothing. */
  lemma {:induction false} SeedFromNothingPending(svc: Service, snap: set<PreferenceKey>, defs: seq<FilePref>, newKeys: seq<string>, now: int)
    requires Valid(svc) && FreshFor(newKeys, defs, svc.store)
    requires forall i :: 0 <= i < |defs| ==> !Pending(snap, defs[i])
    ensures SeedFrom(svc, snap, defs, newKeys, now) == Success(svc)
    decreases |defs|
  {
    if defs != [] {
      var n := |defs| - 1;
      assert FreshFor(newKeys[..n], defs[..n], svc.store);
      forall i | 0 <= i < n ensures !Pending(snap, defs[..n][i]) {
        assert defs[..n][i] == defs[i];
      }
      SeedFromNothingPending(svc, snap, defs[..n], newKeys[..n], now);
    }
  }

  /** The owner of the row a record maps to: application records, and the
      other kinds without owner, give an owner-less row. */
  function RowOwner(f: FilePref): (o: Option<string>)
    ensures o.Some? <==> OwnedRecord(f)
    ensures o.Some? ==> o == f.owner
  {
    if OwnedRecord(f) then f.owner else None
  }

  /** The clash test of the last insert, on any store that extends `store` by
      exactly one row per earlier pending record (under that record's key). */
  lemma StepClashOnStore(store: Store, after: Store, snap: set<PreferenceKey>, defs: seq<FilePref>,
                         keys: seq<string>, k: string, d: Preference)
    requires defs != [] && |keys| == |defs| - 1 && k !in after
    requires GrowsOnlyBy(store, after, keys)
    requires forall i :: 0 <= i < |keys| && Pending(snap, defs[i]) ==>
               keys[i] in after && after[keys[i]].owner == RowOwner(defs[i]) && after[keys[i]].key == defs[i].key
    requires forall i :: 0 <= i < |keys| && !Pending(snap, defs[i]) ==> keys[i] !in after
    requires Pending(snap, defs[|keys|]) && d.key == defs[|keys|].key && d.owner == RowOwner(defs[|keys|])
    ensures Clashes(after, k, d) <==> !StepUnique(store, snap, defs, |keys|)
  {
    var n := |keys|;
    if Clashes(after, k, d) {
      var j :| j in after && j != k && after[j].owner == d.owner && after[j].key == d.key;
      if j !in store {
        var i :| 0 <= i < n && keys[i] == j;
        assert Pending(snap, defs[i]) && OwnedRecord(defs[i]);
      }
    }
    if !StepUnique(store, snap, defs, n) {
      if j :| j in store && store[j].owner == defs[n].owner && store[j].key == defs[n].key {
        assert after[j] == store[j];
      } else {
        var i :| 0 <= i < n && Pending(snap, defs[i]) && OwnedRecord(defs[i])
                 && defs[i].owner == defs[n].owner && defs[i].key == defs[n].key;
        assert keys[i] in after;
      }
    }
  }

  /** The save of the last pending record clashes exactly when inserting it
      breaks the unique constraint against the stored rows and the rows the
      loop inserted before it. */
  lemma SeedStepClash(svc: Service, snap: set<PreferenceKey>, defs: seq<FilePref>, newKeys: seq<string>, now: int)
    requires Valid(svc) && FreshFor(newKeys, defs, svc.store) && defs != []
    requires FreshFor(newKeys[..|defs| - 1], defs[..|defs| - 1], svc.store)
    requires SeedFrom(svc, snap, defs[..|defs| - 1], newKeys[..|defs| - 1], now).Success?
    requires Pending(snap, defs[|defs| - 1]) && MapRecord(defs[|defs| - 1]).Success?
    ensures var n := |defs| - 1;
            var s := SeedFrom(svc, snap, defs[..n], newKeys[..n], now).value;
            Clashes(s.store, newKeys[n], MapRecord(defs[n]).value) <==> !StepUnique(svc.store, snap, defs, n)
  {
    var n := |defs| - 1;
    var init, ks := defs[..n], newKeys[..n];
    var after := SeedFrom(svc, snap, init, ks, now).value.store;
    SeedFromInserts(svc, snap, init, ks, now);
    forall i | 0 <= i < n
      ensures Pending(snap, defs[i]) ==>
                ks[i] in after && after[ks[i]].owner == RowOwner(defs[i]) && after[ks[i]].key == defs[i].key
      ensures !Pending(snap, defs[i]) ==> ks[i] !in after
    {
      assert init[i] == defs[i];
    }
    assert newKeys[n] !in after by {
      forall i | 0 <= i < n ensures ks[i] != newKeys[n] {
        assert ks[i] == newKeys[i];
      }
    }
    StepClashOnStore(svc.store, after, snap, defs, ks, newKeys[n], MapRecord(defs[n]).value);
  }

  /** The seeding loop succeeds exactly when every pending record maps and
      every insert keeps the unique constraint; when all inserts keep it, the
      only possible failure is the mapper's. */
  lemma {:induction false} SeedFromSucceedsIff(svc: Service, snap: set<PreferenceKey>, defs: seq<FilePref>, newKeys: seq<string>, now: int)
    requires Valid(svc) && FreshFor(newKeys, defs, svc.store)
    ensures SeedFrom(svc, snap, defs, newKeys, now).Success? <==> PendingMap(snap, defs) && SeedUnique(svc.store, snap, defs)
    ensures SeedUnique(svc.store, snap, defs) && SeedFrom(svc, snap, defs, newKeys, now).Failure? ==>
              SeedFrom(svc, snap, defs, newKeys, now).error == NotFound
    decreases |defs|
  {
    if defs != [] {
      var n := |defs| - 1;
      assert FreshFor(newKeys[..n], defs[..n], svc.store);
      PendingMapSnoc(snap, defs);
      SeedUniqueSnoc(svc.store, snap, defs);
      SeedFromSucceedsIff(svc, snap, defs[..n], newKeys[..n], now);
      if SeedFrom(svc, snap, defs[..n], newKeys[..n], now).Success? && Pending(snap, defs[n]) && MapRecord(defs[n]).Success? {
        SeedStepClash(svc, snap, defs, newKeys, now);
      }
    }
  }

  /** The merge succeeds exactly when every stored row has a scope, no two
      stored rows share an identity, every record not yet stored has a known
      type and no insert breaks the unique constraint; the failures are the
      collector's, the mapper's and the database's. */
  lemma MergeSucceedsIff(svc: Service, defs: seq<FilePref>, rows: seq<Preference>, newKeys: seq<string>, now: int)
    requires Valid(svc) && IsListing(rows, svc.store) && FreshFor(newKeys, defs, svc.store)
    ensures ReloadInitialPreferences(svc, defs, rows, newKeys, now).Success? <==>
              && StoreScoped(svc.store) && StoreKeyInjective(svc.store)
              && PendingMap(StoreKeys(svc.store), defs) && SeedUnique(svc.store, StoreKeys(svc.store), defs)
    ensures !StoreScoped(svc.store) && StoreKeyInjective(svc.store) ==>
              ReloadInitialPreferences(svc, defs, rows, newKeys, now) == Failure(NullPointer)
    ensures StoreScoped(svc.store) && !StoreKeyInjective(svc.store) ==>
              ReloadInitialPreferences(svc, defs, rows, newKeys, now) == Failure(IllegalState)
    ensures && StoreScoped(svc.store) && StoreKeyInjective(svc.store)
            && !PendingMap(StoreKeys(svc.store), defs) && SeedUnique(svc.store, StoreKeys(svc.store), defs) ==>
              ReloadInitialPreferences(svc, defs, rows, newKeys, now) == Failure(NotFound)
    ensures && StoreScoped(svc.store) && StoreKeyInjective(svc.store)
            && PendingMap(StoreKeys(svc.store), defs) && !SeedUnique(svc.store, StoreKeys(svc.store), defs) ==>
              ReloadInitialPreferences(svc, defs, rows, newKeys, now) == Failure(DataIntegrityViolation)
  {
    ListingTransfer(rows, svc.store);
    SeedFromSucceedsIff(svc, StoreKeys(svc.store), defs, newKeys, now);
  }

  /** Two records of different kinds with one owner and key. */
  const OwnedModule: FilePref :=
    ModulePreference(Generic(Some("v"), Some("STRING"), None, None, None), Some("o"), Some("k"))
  const OwnedUser: FilePref :=
    UserPreference(Generic(Some("v"), Some("STRING"), None, None, None), Some("o"), Some("k"))

  /** Their identities differ, so both are pending on an empty database, but
      their rows share key and owner: the second insert is refused and the
      whole merge fails. */
  lemma SameKeyAndOwnerAbortsMerge()
    ensures FileKey(OwnedModule) != FileKey(OwnedUser)
    ensures ReloadInitialPreferences(Service(map[], []), [OwnedModule, OwnedUser], [], ["a", "b"], 0)
            == Failure(DataIntegrityViolation)
  {
    var svc := Service(map[], []);
    OwnedPairClashes();
    assert IsListing([], svc.store) && FreshFor(["a", "b"], [OwnedModule, OwnedUser], svc.store);
    assert StoreScoped(svc.store) && StoreKeyInjective(svc.store) && StoreKeys(svc.store) == {};
    MergeSucceedsIff(svc, [OwnedModule, OwnedUser], [], ["a", "b"], 0);
  }

  /** Both records map and neither is stored, yet the second repeats the
      first's key and owner. */
  lemma OwnedPairClashes()
    ensures FileKey(OwnedModule) != FileKey(OwnedUser)
    ensures PendingMap({}, [OwnedModule, OwnedUser])
    ensures !SeedUnique(map[], {}, [OwnedModule, OwnedUser])
  {
    var defs := [OwnedModule, OwnedUser];
    assert FileKey(OwnedModule).fields[2] != FileKey(OwnedUser).fields[2];
    MapRecordTotalOnKnownTypes(OwnedModule, STRING);
    MapRecordTotalOnKnownTypes(OwnedUser, STRING);
    assert Pending({}, defs[0]) && Pending({}, defs[1]);
    assert !StepUnique(map[], {}, defs, 1) by {
      assert OwnedRecord(defs[0]) && defs[0].owner == defs[1].owner && defs[0].key == defs[1].key;
    }
  }

  /** A record with an owner-less module kind: its own key carries the null
      owner, the stored row's key carries the application sentinel. */
  const OwnerlessModule: FilePref :=
    ModulePreference(Generic(Some("v"), Some("STRING"), None, None, None), None, Some("k"))

  /** Idempotence needs key-preserving records: an owner-less module record is
      inserted again by every merge, because the row stored for it never
      carries the record's key. */
  lemma OwnerlessRecordIsReinserted()
    ensures var svc := Service(map[], []);
            var s1 := ReloadInitialPreferences(svc, [OwnerlessModule], [], ["a"], 0);
            && s1.Success? && s1.value.store.Keys == {"a"}
            && var s2 := ReloadInitialPreferences(s1.value, [OwnerlessModule], [s1.value.store["a"]], ["b"], 1);
               s2.Success? && s2.value.store.Keys == {"a", "b"}
  {
    var row := OwnerlessFirstMerge();
    var s1 := ReloadInitialPreferences(Service(map[], []), [OwnerlessModule], [], ["a"], 0).value;
    var d := MapRecord(OwnerlessModule).value;
    MapRecordPreservesKey(OwnerlessModule);
    assert Snapshot([row]) == Success(map[KeyOf(row) := row]) by {
      assert [row][..0] == [];
    }
    var snap := Snapshot([row]).value.Keys;
    assert snap == {KeyOf(row)};
    assert !Clashes(s1.store, "b", d);
    SeedSingle(s1, snap, OwnerlessModule, "b", 1);
    assert ReloadInitialPreferences(s1, [OwnerlessModule], [row], ["b"], 1)
           == SeedFrom(s1, snap, [OwnerlessModule], ["b"], 1);
  }

  /** The first merge of the owner-less record into an empty database stores
      one owner-less row, whose identity is the mapped preference's. */
  lemma OwnerlessFirstMerge() returns (row: Preference)
    ensures MapRecord(OwnerlessModule).Success?
    ensures var s1 := ReloadInitialPreferences(Service(map[], []), [OwnerlessModule], [], ["a"], 0);
            && s1.Success? && s1.value.store == map["a" := row]
            && row.owner.None? && KeyOf(row) == KeyOf(MapRecord(OwnerlessModule).value)
  {
    MapRecordTotalOnKnownTypes(OwnerlessModule, STRING);
    var d := MapRecord(OwnerlessModule).value;
    var svc := Service(map[], []);
    assert Snapshot([]) == Success(map[]);
    assert d.owner.None? && !Clashes(svc.store, "a", d);
    SeedSingle(svc, {}, OwnerlessModule, "a", 0);
    row := Persisted(d, "a", 0);
  }

  /** The loop over a single pending record that maps and does not clash
      inserts its row under the generated key. */
  lemma SeedSingle(svc: Service, snap: set<PreferenceKey>, f: FilePref, k: string, now: int)
    requires Valid(svc) && k != "" && k !in svc.store
    requires Pending(snap, f) && MapRecord(f).Success? && !Clashes(svc.store, k, MapRecord(f).value)
    ensures SeedFrom(svc, snap, [f], [k], now).Success?
    ensures SeedFrom(svc, snap, [f], [k], now).value.store == svc.store[k := Persisted(MapRecord(f).value, k, now)]
  {
    assert [f][..0] == [] && [k][..0] == [];
  }
}
