/** The `Module` entity and `ModuleServiceImpl`: validated names and urls, the
    start-up order comparator, the order assigned to a new module, and the
    bulk update of start-up orders. The repository is a map from primary key
    to module; the service is transactional, so a failing call leaves it as it
    was. */
module Modules {
  import opened Common

  datatype Module = Module(
    pk: Option<int>,
    moduleName: NStr,
    url: NStr,
    loaded: bool,
    loadOnStartup: bool,
    startupOrder: int,
    description: NStr)

  const DefaultDescription: string := "--"

  /** The range of the Java `int` that holds a start-up order. */
  predicate IsInt32(x: int) {
    -TwoTo31 <= x < TwoTo31
  }

  const MaxInt32: int := TwoTo31 - 1

  /** `new Module(moduleName, url)`: the name must have text, the url is not
      checked; the other fields take their declared defaults. */
  function NewModule(moduleName: NStr, url: NStr): (r: Result<Module>)
    ensures r.Success? <==> HasText(moduleName)
    ensures r.Failure? ==> r.error == IllegalArgument
    ensures r.Success? ==>
              && r.value.moduleName == moduleName && r.value.url == url && r.value.pk.None?
              && !r.value.loaded && r.value.loadOnStartup && r.value.startupOrder == 0
              && r.value.description == Some(DefaultDescription)
  {
    if !HasText(moduleName) then Failure(IllegalArgument)
    else Success(Module(None, moduleName, url, false, true, 0, Some(DefaultDescription)))
  }

  /** `setModuleName`: refuses a name without text, otherwise changes only the name. */
  function SetModuleName(m: Module, moduleName: NStr): (r: Result<Module>)
    ensures r.Success? <==> HasText(moduleName)
    ensures r.Failure? ==> r.error == IllegalArgument
    ensures r.Success? ==> r.value.moduleName == moduleName && r.value.(moduleName := m.moduleName) == m
  {
    if !HasText(moduleName) then Failure(IllegalArgument) else Success(m.(moduleName := moduleName))
  }

  /** `setUrl`: refuses a url without text, otherwise changes only the url. */
  function SetUrl(m: Module, url: NStr): (r: Result<Module>)
    ensures r.Success? <==> HasText(url)
    ensures r.Failure? ==> r.error == IllegalArgument
    ensures r.Success? ==> r.value.url == url && r.value.(url := m.url) == m
  {
    if !HasText(url) then Failure(IllegalArgument) else Success(m.(url := url))
  }

  /** Only the setter checks the url: the constructor accepts a module without
      one, which the setter would refuse to produce. */
  lemma UrlCheckedOnlyBySetter(moduleName: string)
    requires HasText(Some(moduleName))
    ensures NewModule(Some(moduleName), None).Success?
    ensures SetUrl(NewModule(Some(moduleName), None).value, None).Failure?
    ensures SetUrl(NewModule(Some(moduleName), None).value, Some("")).Failure?
  {
  }

  // ------------------------------------------------------------------ ordering

  /** `ModuleComparator.compare(o1, o2)`. */
  function Compare(o1: Module, o2: Module): (r: int)
    ensures r == 1 || r == -1
  {
    if o1.startupOrder >= o2.startupOrder then 1 else -1
  }

  /** The comparator never answers 0: on modules with different orders it is
      antisymmetric and agrees with the orders, but two modules with the same
      order are each "greater" than the other, against the contract of
      `Comparator`. */
  lemma ComparatorProperties(a: Module, b: Module)
    ensures Compare(a, b) != 0
    ensures Compare(a, b) == 1 <==> a.startupOrder >= b.startupOrder
    ensures a.startupOrder != b.startupOrder ==> Compare(a, b) == -Compare(b, a)
    ensures a.startupOrder == b.startupOrder ==> Compare(a, b) == 1 && Compare(b, a) == 1
  {
  }

  /** Modules in ascending start-up order. */
  predicate Sorted(s: seq<Module>) {
    forall i, j :: 0 <= i < j < |s| ==> s[i].startupOrder <= s[j].startupOrder
  }

  /** A list is in ascending order exactly when the comparator puts every
      later module after every earlier one. */
  lemma SortedByComparator(s: seq<Module>)
    ensures Sorted(s) <==> forall i, j :: 0 <= i < j < |s| ==> Compare(s[j], s[i]) == 1
  {
  }

  /** The largest order in a non-empty list: what the last element holds once
      the list is sorted with the comparator. */
  function MaxOrder(all: seq<Module>): (r: int)
    requires all != []
    ensures exists i :: 0 <= i < |all| && all[i].startupOrder == r
    ensures forall i :: 0 <= i < |all| ==> all[i].startupOrder <= r
    decreases |all|
  {
    if |all| == 1 then all[0].startupOrder
    else
      var n := |all| - 1;
      var m := MaxOrder(all[..n]);
      assert forall i :: 0 <= i < n ==> all[..n][i] == all[i];
      if all[n].startupOrder > m then all[n].startupOrder else m
  }

  /** The last element of any sorted list holds the largest order. */
  lemma SortedLastIsMax(s: seq<Module>)
    requires s != [] && Sorted(s)
    ensures s[|s| - 1].startupOrder == MaxOrder(s)
  {
  }

  // ------------------------------------------------------------------ repository

  type Repo = map<int, Module>

  /** The columns `C_MODULE_NAME` and `C_URL` are `nullable = false` and
      `unique = true`. */
  predicate ColumnsValid(repo: Repo) {
    && (forall k :: k in repo ==> repo[k].moduleName.Some? && repo[k].url.Some?)
    && (forall k1, k2 :: k1 in repo && k2 in repo && k1 != k2 ==>
          repo[k1].moduleName != repo[k2].moduleName && repo[k1].url != repo[k2].url)
  }

  /** Every module sits under its own primary key with an `int` order, and
      the table's column constraints hold. */
  predicate RepoWf(repo: Repo) {
    && (forall k :: k in repo ==> repo[k].pk == Some(k) && IsInt32(repo[k].startupOrder))
    && ColumnsValid(repo)
  }

  /** Writing `m` under primary key `k` breaks a column constraint: its name
      or url is null, or another module already has that name or that url. */
  predicate ColumnClash(repo: Repo, k: int, m: Module) {
    || m.moduleName.None? || m.url.None?
    || exists j :: j in repo && j != k && (repo[j].moduleName == m.moduleName || repo[j].url == m.url)
  }

  /** On a repository that meets the column constraints, a write is refused
      exactly when the repository it would leave breaks them. */
  lemma ColumnClashExactlyViolations(repo: Repo, k: int, m: Module)
    requires ColumnsValid(repo)
    ensures ColumnClash(repo, k, m) <==> !ColumnsValid(repo[k := m])
  {
    var after := repo[k := m];
    assert k in after && after[k] == m;
    if ColumnClash(repo, k, m) && !(m.moduleName.None? || m.url.None?) {
      var j :| j in repo && j != k && (repo[j].moduleName == m.moduleName || repo[j].url == m.url);
      assert j in after && after[j] == repo[j];
      assert !ColumnsValid(after);
    }
    if !ColumnClash(repo, k, m) {
      forall k1 | k1 in after ensures after[k1].moduleName.Some? && after[k1].url.Some? {
        if k1 != k { assert after[k1] == repo[k1]; }
      }
      forall k1, k2 | k1 in after && k2 in after && k1 != k2
        ensures after[k1].moduleName != after[k2].moduleName && after[k1].url != after[k2].url
      {
        if k1 == k {
          assert after[k2] == repo[k2];
        } else if k2 == k {
          assert after[k1] == repo[k1];
        }
      }
      assert ColumnsValid(after);
    }
  }

  /** `findAll()`: `all` lists every module of the repository exactly once. */
  predicate Lists(all: seq<Module>, repo: Repo) {
    && (forall i :: 0 <= i < |all| ==> all[i].pk.Some? && all[i].pk.value in repo && repo[all[i].pk.value] == all[i])
    && (forall k :: k in repo ==> exists i :: 0 <= i < |all| && all[i].pk == Some(k))
    && (forall i, j :: 0 <= i < j < |all| ==> all[i].pk != all[j].pk)
  }

  /** The primary key a save writes under: the module's own, or the one the
      database generates for a new module. */
  function ModuleKey(m: Module, newPk: int): int {
    if m.pk.Some? then m.pk.value else newPk
  }

  /** `save(module)`: a null module is refused. A new module (no primary key)
      saved into a non-empty repository gets the largest stored order plus one,
      in `int` arithmetic, and is stored under the key the database generates,
      here `newPk`; otherwise the order is kept as given. The database refuses
      a row with a null name or url, or with the name or url of another
      module. */
  function Save(repo: Repo, all: seq<Module>, m: Option<Module>, newPk: int): (r: Result<(Repo, Module)>)
    requires RepoWf(repo) && Lists(all, repo) && newPk !in repo
    requires m.Some? ==> IsInt32(m.value.startupOrder)
    ensures r.Failure? <==> m.None? || ColumnClash(repo, ModuleKey(m.value, newPk), m.value)
    ensures m.None? ==> r == Failure(IllegalArgument)
    ensures m.Some? && r.Failure? ==> r.error == DataIntegrityViolation
    ensures r.Success? ==> RepoWf(r.value.0) && r.value.1.pk.Some? && r.value.0 == repo[r.value.1.pk.value := r.value.1]
    ensures r.Success? && m.value.pk.Some? ==> r.value.1 == m.value
    ensures r.Success? && m.value.pk.None? ==>
              && r.value.1 == m.value.(pk := Some(newPk), startupOrder := r.value.1.startupOrder)
              && (all == [] ==> r.value.1.startupOrder == m.value.startupOrder)
              && (all != [] ==> r.value.1.startupOrder == Wrap32(MaxOrder(all) + 1))
  {
    match m
    case None => Failure(IllegalArgument)
    case Some(mod) =>
      if ColumnClash(repo, ModuleKey(mod, newPk), mod) then Failure(DataIntegrityViolation)
      else if mod.pk.Some? then
        ColumnClashExactlyViolations(repo, mod.pk.value, mod);
        Success((repo[mod.pk.value := mod], mod))
      else
        var order := if all == [] then mod.startupOrder else Wrap32(MaxOrder(all) + 1);
        var saved := mod.(pk := Some(newPk), startupOrder := order);
        ColumnClashExactlyViolations(repo, newPk, saved);
        Success((repo[newPk := saved], saved))
  }

  /** Below the top of the `int` range a new module that the database
      accepts is ordered after every stored one; at the top the order wraps to
      the smallest `int`. */
  lemma NewModuleOrderedLast(repo: Repo, all: seq<Module>, m: Module, newPk: int)
    requires RepoWf(repo) && Lists(all, repo) && newPk !in repo && all != []
    requires m.pk.None? && IsInt32(m.startupOrder)
    ensures Save(repo, all, Some(m), newPk).Success? <==> !ColumnClash(repo, newPk, m)
    ensures Save(repo, all, Some(m), newPk).Success? ==>
              var saved := Save(repo, all, Some(m), newPk).value.1;
              && (MaxOrder(all) < MaxInt32 ==> forall k :: k in repo ==> repo[k].startupOrder < saved.startupOrder)
              && (MaxOrder(all) == MaxInt32 ==> saved.startupOrder == -TwoTo31)
  {
    if Save(repo, all, Some(m), newPk).Success? {
      var saved := Save(repo, all, Some(m), newPk).value.1;
      var i0 :| 0 <= i0 < |all| && all[i0].startupOrder == MaxOrder(all);
      var k0 := all[i0].pk.value;
      assert k0 in repo && repo[k0] == all[i0];
      assert IsInt32(repo[k0].startupOrder);
      if MaxOrder(all) < MaxInt32 {
        Wrap32InRange(MaxOrder(all) + 1);
        forall k | k in repo ensures repo[k].startupOrder < saved.startupOrder {
          var i :| 0 <= i < |all| && all[i].pk == Some(k);
        }
      }
    }
  }

  /** The constructor accepts a module without url, but the database refuses
      to store it; nor can a second module take a stored module's name. */
  lemma ColumnConstraintsRefuseSave(repo: Repo, all: seq<Module>, name: string, newPk: int, k: int)
    requires RepoWf(repo) && Lists(all, repo) && newPk !in repo && HasText(Some(name))
    requires k in repo
    ensures NewModule(Some(name), None).Success?
    ensures Save(repo, all, Some(NewModule(Some(name), None).value), newPk) == Failure(DataIntegrityViolation)
    ensures NewModule(repo[k].moduleName, Some("other")).Success? ==>
              Save(repo, all, Some(NewModule(repo[k].moduleName, Some("other")).value), newPk) == Failure(DataIntegrityViolation)
  {
    if NewModule(repo[k].moduleName, Some("other")).Success? {
      var twin := NewModule(repo[k].moduleName, Some("other")).value;
      assert k != newPk && repo[k].moduleName == twin.moduleName;
    }
  }

  // ------------------------------------------------------------ saveStartupOrder

  /** Every listed module names a stored one. */
  predicate Known(mods: seq<Module>, repo: Repo) {
    forall i :: 0 <= i < |mods| ==> mods[i].pk.Some? && mods[i].pk.value in repo
  }

  /** The order the last listed module with key `k` carries, if any. */
  function LastOrder(mods: seq<Module>, k: int): (r: Option<int>)
    ensures r.Some? <==> exists i :: 0 <= i < |mods| && mods[i].pk == Some(k)
    decreases |mods|
  {
    if mods == [] then None
    else
      var n := |mods| - 1;
      if mods[n].pk == Some(k) then Some(mods[n].startupOrder)
      else
        var r := LastOrder(mods[..n], k);
        assert forall i :: 0 <= i < n ==> mods[..n][i] == mods[i];
        r
  }

  /** The loop body applied to each listed module in turn: look the module up
      by key and copy the listed order onto it. */
  function ApplyOrders(repo: Repo, mods: seq<Module>): (r: Repo)
    requires Known(mods, repo)
    ensures r.Keys == repo.Keys
    decreases |mods|
  {
    if mods == [] then repo
    else
      var n := |mods| - 1;
      var cur := ApplyOrders(repo, mods[..n]);
      var k := mods[n].pk.value;
      cur[k := cur[k].(startupOrder := mods[n].startupOrder)]
  }

  /** Only start-up orders change: each module ends with the order of the last
      listed entry for it, and a module not listed is untouched. */
  lemma {:induction false} ApplyOrdersEffect(repo: Repo, mods: seq<Module>, k: int)
    requires Known(mods, repo) && k in repo
    ensures LastOrder(mods, k).None? ==> ApplyOrders(repo, mods)[k] == repo[k]
    ensures LastOrder(mods, k).Some? ==> ApplyOrders(repo, mods)[k] == repo[k].(startupOrder := LastOrder(mods, k).value)
    decreases |mods|
  {
    if mods != [] {
      var n := |mods| - 1;
      ApplyOrdersEffect(repo, mods[..n], k);
    }
  }

  /** `saveStartupOrder(modules)`: refuses a null or empty list; a module with
      no key, or with a key that is not stored, aborts the whole call. */
  method SaveStartupOrder(repo: Repo, modules: Option<seq<Module>>) returns (r: Result<Repo>)
    requires RepoWf(repo)
    ensures modules.None? || modules.value == [] ==> r == Failure(IllegalArgument)
    ensures r.Success? <==> modules.Some? && modules.value != [] && Known(modules.value, repo)
    ensures r.Success? ==> r.value == ApplyOrders(repo, modules.value)
    ensures r.Failure? ==> r.error == IllegalArgument || r.error == NotFound
    ensures (r.Failure? && modules.Some? && modules.value != [] && forall i :: 0 <= i < |modules.value| ==> modules.value[i].pk.Some?)
              ==> r.error == NotFound
  {
    if modules.None? || modules.value == [] {
      return Failure(IllegalArgument);
    }
    var mods := modules.value;
    var cur := repo;
    var i := 0;
    while i < |mods|
      invariant 0 <= i <= |mods|
      invariant Known(mods[..i], repo)
      invariant cur == ApplyOrders(repo, mods[..i])
    {
      var m := mods[i];
      if m.pk.None? {
        assert !Known(mods, repo) && modules.value[i].pk.None?;
        return Failure(IllegalArgument);
      }
      if m.pk.value !in cur {
        assert m.pk.value !in repo;
        assert !Known(mods, repo);
        return Failure(NotFound);
      }
      assert mods[..i + 1][..i] == mods[..i];
      cur := cur[m.pk.value := cur[m.pk.value].(startupOrder := m.startupOrder)];
      i := i + 1;
    }
    assert mods[..i] == mods;
    return Success(cur);
  }
}
