/** The unmarshalled document root `Preferences`: the raw element list, which
    may still be null, and the four per-kind views, each computed on first use
    and cached. */
module FileDocument {
  import opened Common
  import opened FileRecords

  /** `raw` is the element list field; `cache` holds the per-kind views computed so far. */
  datatype Document = Document(raw: Option<seq<FilePref>>, cache: map<Kind, seq<FilePref>>)

  /** A root whose element list was never touched. */
  const Untouched: Document := Document(None, map[])

  /** The elements of one kind, in document order. */
  function OfKind(all: seq<FilePref>, k: Kind): (r: seq<FilePref>)
    ensures |r| <= |all|
    decreases |all|
  {
    if all == [] then []
    else OfKind(all[..|all| - 1], k) + Keep(all[|all| - 1], k)
  }

  function Keep(x: FilePref, k: Kind): seq<FilePref> {
    if KindOf(x) == k then [x] else []
  }

  /** A view holds exactly the elements of its kind. */
  lemma {:induction false} OfKindMembers(all: seq<FilePref>, k: Kind, x: FilePref)
    ensures x in OfKind(all, k) <==> x in all && KindOf(x) == k
    decreases |all|
  {
    if all != [] {
      var n := |all| - 1;
      OfKindMembers(all[..n], k, x);
      assert all == all[..n] + [all[n]];
    }
  }

  /** Filtering commutes with concatenation, so each view keeps document order. */
  lemma {:induction false} OfKindAppend(a: seq<FilePref>, b: seq<FilePref>, k: Kind)
    ensures OfKind(a + b, k) == OfKind(a, k) + OfKind(b, k)
    decreases |b|
  {
    if b == [] {
      assert a + b == a;
    } else {
      var n := |b| - 1;
      assert (a + b)[..|a + b| - 1] == a + b[..n];
      assert (a + b)[|a + b| - 1] == b[n];
      OfKindAppend(a, b[..n], k);
    }
  }

  /** A sequence of one kind is its own view and contributes nothing to the others. */
  lemma {:induction false} OfKindUniform(all: seq<FilePref>, k: Kind, j: Kind)
    requires forall i :: 0 <= i < |all| ==> KindOf(all[i]) == k
    ensures OfKind(all, k) == all
    ensures j != k ==> OfKind(all, j) == []
    decreases |all|
  {
    if all != [] {
      OfKindUniform(all[..|all| - 1], k, j);
      assert all[..|all| - 1] + [all[|all| - 1]] == all;
    }
  }

  lemma OfKindSnoc(init: seq<FilePref>, x: FilePref, k: Kind)
    ensures OfKind(init + [x], k) == OfKind(init, k) + Keep(x, k)
  {
    assert (init + [x])[..|init|] == init;
  }

  /** The views of a one-element list: exactly one of them holds the element. */
  lemma KeepOnce(x: FilePref)
    ensures multiset(Keep(x, ApplicationKind)) + multiset(Keep(x, ModuleKind))
            + multiset(Keep(x, RoleKind)) + multiset(Keep(x, UserKind)) == multiset{x}
  {
  }

  lemma MultisetSnoc(a: seq<FilePref>, m: seq<FilePref>, r: seq<FilePref>, u: seq<FilePref>,
                     ka: seq<FilePref>, km: seq<FilePref>, kr: seq<FilePref>, ku: seq<FilePref>,
                     init: seq<FilePref>, x: FilePref)
    requires multiset(init) == multiset(a) + multiset(m) + multiset(r) + multiset(u)
    requires multiset(ka) + multiset(km) + multiset(kr) + multiset(ku) == multiset{x}
    ensures multiset(init + [x]) == multiset(a + ka) + multiset(m + km) + multiset(r + kr) + multiset(u + ku)
  {
  }

  /** The four views partition the element list: every occurrence lands in
      exactly the view of its kind, so their lengths add up to the list's. */
  lemma {:induction false} ViewsPartition(all: seq<FilePref>)
    ensures multiset(all) == multiset(OfKind(all, ApplicationKind)) + multiset(OfKind(all, ModuleKind))
                             + multiset(OfKind(all, RoleKind)) + multiset(OfKind(all, UserKind))
    ensures |all| == |OfKind(all, ApplicationKind)| + |OfKind(all, ModuleKind)|
                     + |OfKind(all, RoleKind)| + |OfKind(all, UserKind)|
    decreases |all|
  {
    if all != [] {
      var n := |all| - 1;
      var init, x := all[..n], all[n];
      ViewsPartition(init);
      assert all == init + [x];
      OfKindSnoc(init, x, ApplicationKind);
      OfKindSnoc(init, x, ModuleKind);
      OfKindSnoc(init, x, RoleKind);
      OfKindSnoc(init, x, UserKind);
      KeepOnce(x);
      MultisetSnoc(OfKind(init, ApplicationKind), OfKind(init, ModuleKind), OfKind(init, RoleKind), OfKind(init, UserKind),
                   Keep(x, ApplicationKind), Keep(x, ModuleKind), Keep(x, RoleKind), Keep(x, UserKind), init, x);
    }
    MultisetSizes(all, OfKind(all, ApplicationKind), OfKind(all, ModuleKind), OfKind(all, RoleKind), OfKind(all, UserKind));
  }

  lemma MultisetSizes(all: seq<FilePref>, a: seq<FilePref>, m: seq<FilePref>, r: seq<FilePref>, u: seq<FilePref>)
    requires multiset(all) == multiset(a) + multiset(m) + multiset(r) + multiset(u)
    ensures |all| == |a| + |m| + |r| + |u|
  {
    assert |multiset(all)| == |all|;
  }

  /** `getAll()`: the element list, created empty when it is still null. */
  function GetAll(d: Document): (r: (Document, seq<FilePref>))
    ensures r.0.raw == Some(r.1) && r.0.cache == d.cache
    ensures d.raw.Some? ==> r.0 == d && r.1 == d.raw.value
    ensures d.raw.None? ==> r.1 == []
  {
    match d.raw
    case Some(all) => (d, all)
    case None => (d.(raw := Some([])), [])
  }

  /** `getApplications()`, `getModules()`, `getRoles()`, `getUsers()`: the cached
      view if there is one; otherwise the view field is set to a new empty list
      and filled from the raw field, which is dereferenced even when null. On
      that failure the empty list stays cached. */
  function GetByKind(d: Document, k: Kind): (r: (Document, Result<seq<FilePref>>))
    ensures r.0.raw == d.raw && k in r.0.cache
    ensures forall j :: j != k ==> (j in r.0.cache <==> j in d.cache)
    ensures r.1.Failure? <==> k !in d.cache && d.raw.None?
    ensures r.1.Failure? ==> r.1.error == NullPointer && r.0.cache[k] == []
    ensures r.1.Success? ==> r.0.cache[k] == r.1.value
    ensures r.1.Success? && k !in d.cache ==> r.1.value == OfKind(d.raw.value, k)
  {
    if k in d.cache then (d, Success(d.cache[k]))
    else match d.raw
      case None => (d.(cache := d.cache[k := []]), Failure(NullPointer))
      case Some(all) =>
        var view := OfKind(all, k);
        (d.(cache := d.cache[k := view]), Success(view))
  }

  /** On a document whose list was never initialised the first filtered read
      fails and the second returns the empty list cached by the first. */
  lemma UninitialisedViewFailsThenEmpty(k: Kind)
    ensures GetByKind(Untouched, k).1 == Failure(NullPointer)
    ensures GetByKind(GetByKind(Untouched, k).0, k).1 == Success([])
  {
  }

  /** After `getAll()` the four views are exactly the per-kind filters of the list. */
  lemma ViewsAfterGetAll(d: Document, k: Kind)
    requires k !in d.cache
    ensures GetByKind(GetAll(d).0, k).1 == Success(OfKind(GetAll(d).1, k))
  {
  }

  /** A computed view is not refreshed: elements added to the list afterwards
      never appear in it, and it is stale whenever one of them is of its kind. */
  lemma CachedViewIsStale(d: Document, k: Kind, more: seq<FilePref>)
    requires d.raw.Some? && k !in d.cache
    ensures var (d1, first) := GetByKind(d, k);
            var d2 := d1.(raw := Some(d1.raw.value + more));
            && GetByKind(d2, k).1 == first
            && (OfKind(more, k) != [] ==> first.value != OfKind(d2.raw.value, k))
  {
    OfKindAppend(d.raw.value, more, k);
  }
}
