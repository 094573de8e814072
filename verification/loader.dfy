/** `XMLPreferenceDaoImpl`: loads the definition file once at start-up and on
    every reload request, keeps the unmarshalled document and indexes its
    records by identity key, refusing a file that defines one key twice.
    Resolving the file name and unmarshalling the stream are the environment:
    they enter as a `Resource` value. */
module FileLoader {
  import opened Common
  import opened PrefKey
  import opened FileRecords
  import opened FileDocument

  /** What resolving and unmarshalling the configured file yields: no such
      resource, a stream that cannot be opened, content that does not
      unmarshal, or a parsed document. */
  datatype Resource = Absent | Unreadable | Malformed | Parsed(doc: Document)

  /** The loader's state: its configured file name, the last document assigned
      (null before any successful unmarshal) and the key index. */
  datatype Dao = Dao(fileName: NStr, document: Option<Document>, index: map<PreferenceKey, FilePref>)

  /** No two records share an identity key. */
  predicate DistinctKeys(prefs: seq<FilePref>) {
    forall i, j :: 0 <= i < j < |prefs| ==> FileKey(prefs[i]) != FileKey(prefs[j])
  }

  /** Adding `prefs` one by one to `index` never meets a key already present. */
  predicate NoClash(index: map<PreferenceKey, FilePref>, prefs: seq<FilePref>) {
    && (forall i :: 0 <= i < |prefs| ==> FileKey(prefs[i]) !in index)
    && DistinctKeys(prefs)
  }

  function KeysOf(prefs: seq<FilePref>): set<PreferenceKey> {
    set i | 0 <= i < |prefs| :: FileKey(prefs[i])
  }

  /** The indexing loop of `loadResources`: put each record under its key, and
      stop (reporting `true`) at the first key that is already present. */
  function IndexAll(index: map<PreferenceKey, FilePref>, prefs: seq<FilePref>): (r: (map<PreferenceKey, FilePref>, bool))
    ensures !r.1 <==> NoClash(index, prefs)
    ensures forall k :: k in index ==> k in r.0 && r.0[k] == index[k]
    ensures !r.1 ==> forall i :: 0 <= i < |prefs| ==> FileKey(prefs[i]) in r.0 && r.0[FileKey(prefs[i])] == prefs[i]
    decreases |prefs|
  {
    if prefs == [] then (index, false)
    else
      var k := FileKey(prefs[0]);
      if k in index then (index, true)
      else
        var rest := IndexAll(index[k := prefs[0]], prefs[1..]);
        NoClashCons(index, prefs);
        if !rest.1 then
          IndexedTail(rest.0, prefs);
          rest
        else rest
  }

  /** The index only ever gains the records' keys, and a clean pass adds one
      new entry per record. */
  lemma {:induction false} IndexAllKeys(index: map<PreferenceKey, FilePref>, prefs: seq<FilePref>)
    ensures IndexAll(index, prefs).0.Keys <= index.Keys + KeysOf(prefs)
    ensures !IndexAll(index, prefs).1 ==>
              && IndexAll(index, prefs).0.Keys == index.Keys + KeysOf(prefs)
              && |IndexAll(index, prefs).0| == |index| + |prefs|
    decreases |prefs|
  {
    if prefs != [] {
      var k := FileKey(prefs[0]);
      if k !in index {
        IndexAllKeys(index[k := prefs[0]], prefs[1..]);
        KeysOfCons(prefs);
      }
    }
  }

  lemma KeysOfCons(prefs: seq<FilePref>)
    requires prefs != []
    ensures KeysOf(prefs) == {FileKey(prefs[0])} + KeysOf(prefs[1..])
  {
    forall q | q in KeysOf(prefs) ensures q in {FileKey(prefs[0])} + KeysOf(prefs[1..]) {
      var i :| 0 <= i < |prefs| && FileKey(prefs[i]) == q;
      if i > 0 { assert FileKey(prefs[1..][i - 1]) == q; }
    }
    forall q | q in KeysOf(prefs[1..]) ensures q in KeysOf(prefs) {
      var i :| 0 <= i < |prefs[1..]| && FileKey(prefs[1..][i]) == q;
      assert FileKey(prefs[i + 1]) == q;
    }
  }

  lemma NoClashCons(index: map<PreferenceKey, FilePref>, prefs: seq<FilePref>)
    requires prefs != [] && FileKey(prefs[0]) !in index
    ensures NoClash(index, prefs) <==> NoClash(index[FileKey(prefs[0]) := prefs[0]], prefs[1..])
  {
    var k := FileKey(prefs[0]);
    if NoClash(index[k := prefs[0]], prefs[1..]) {
      forall i, j | 0 <= i < j < |prefs| ensures FileKey(prefs[i]) != FileKey(prefs[j]) {
        if i > 0 { assert FileKey(prefs[1..][i - 1]) != FileKey(prefs[1..][j - 1]); }
        else { assert FileKey(prefs[1..][j - 1]) !in index[k := prefs[0]]; }
      }
      forall i | 0 <= i < |prefs| ensures FileKey(prefs[i]) !in index {
        if i > 0 { assert FileKey(prefs[1..][i - 1]) !in index[k := prefs[0]]; }
      }
    }
    if NoClash(index, prefs) {
      forall i | 0 <= i < |prefs[1..]| ensures FileKey(prefs[1..][i]) !in index[k := prefs[0]] {
        assert FileKey(prefs[i + 1]) != FileKey(prefs[0]);
      }
      forall i, j | 0 <= i < j < |prefs[1..]| ensures FileKey(prefs[1..][i]) != FileKey(prefs[1..][j]) {
        assert FileKey(prefs[i + 1]) != FileKey(prefs[j + 1]);
      }
    }
  }

  lemma IndexedTail(m: map<PreferenceKey, FilePref>, prefs: seq<FilePref>)
    requires prefs != [] && FileKey(prefs[0]) in m && m[FileKey(prefs[0])] == prefs[0]
    requires forall i :: 0 <= i < |prefs[1..]| ==> FileKey(prefs[1..][i]) in m && m[FileKey(prefs[1..][i])] == prefs[1..][i]
    ensures forall i :: 0 <= i < |prefs| ==> FileKey(prefs[i]) in m && m[FileKey(prefs[i])] == prefs[i]
  {
    forall i | 1 <= i < |prefs| ensures FileKey(prefs[i]) in m && m[FileKey(prefs[i])] == prefs[i] {
      assert prefs[i] == prefs[1..][i - 1];
    }
  }

  /** `findAll()`: the document's elements, or an empty list before any document. */
  function FindAll(dao: Dao): (r: seq<FilePref>)
    ensures dao.document.None? ==> r == []
    ensures dao.document.Some? && dao.document.value.raw.Some? ==> r == dao.document.value.raw.value
  {
    match dao.document
    case None => []
    case Some(doc) => GetAll(doc).1
  }

  /** `loadResources()`: with an empty or null file name, or a resource that
      does not exist, nothing happens. An unreadable or unmarshallable resource
      raises before the document is assigned. Otherwise the document is
      assigned first and its records are indexed; a repeated key raises
      NoUniqueResult with the document kept and the index partly filled. */
  function Load(dao: Dao, resource: Resource): (r: (Dao, Option<Error>))
    ensures r.0.fileName == dao.fileName
    ensures !NonEmpty(dao.fileName) || resource.Absent? ==> r == (dao, None)
    ensures NonEmpty(dao.fileName) && resource.Unreadable? ==> r == (dao, Some(ResourceNotFound))
    ensures NonEmpty(dao.fileName) && resource.Malformed? ==> r == (dao, Some(IntegrationLayer))
    ensures NonEmpty(dao.fileName) && resource.Parsed? ==>
              && r.0.document == Some(GetAll(resource.doc).0)
              && FindAll(r.0) == GetAll(resource.doc).1
              && (r.1.None? <==> NoClash(dao.index, FindAll(r.0)))
              && (r.1.Some? ==> r.1.value == NoUniqueResult)
  {
    if !NonEmpty(dao.fileName) then (dao, None)
    else match resource
      case Absent => (dao, None)
      case Unreadable => (dao, Some(ResourceNotFound))
      case Malformed => (dao, Some(IntegrationLayer))
      case Parsed(doc) =>
        var (loaded, all) := GetAll(doc);
        var (index, clash) := IndexAll(dao.index, all);
        (Dao(dao.fileName, Some(loaded), index), if clash then Some(NoUniqueResult) else None)
  }

  /** `reloadResources()`: forget the document and the index, then load. */
  function Reload(dao: Dao, resource: Resource): (r: (Dao, Option<Error>))
    ensures r == Load(Dao(dao.fileName, None, map[]), resource)
  {
    Load(dao.(document := None, index := map[]), resource)
  }

  /** Reloading depends only on the file name and the resource, never on what
      was loaded before. */
  lemma ReloadForgetsPriorState(d1: Dao, d2: Dao, resource: Resource)
    requires d1.fileName == d2.fileName
    ensures Reload(d1, resource) == Reload(d2, resource)
  {
  }

  /** After a clean reload of a parsed document the index holds exactly one
      entry per record, each under its own key, and the records have
      pairwise distinct keys. */
  lemma ReloadIndexesEveryRecord(dao: Dao, doc: Document)
    requires NonEmpty(dao.fileName)
    requires Reload(dao, Parsed(doc)).1.None?
    ensures var d := Reload(dao, Parsed(doc)).0;
            && DistinctKeys(FindAll(d))
            && |d.index| == |FindAll(d)|
            && d.index.Keys == KeysOf(FindAll(d))
            && forall i :: 0 <= i < |FindAll(d)| ==> d.index[FileKey(FindAll(d)[i])] == FindAll(d)[i]
  {
    IndexAllKeys(map[], GetAll(doc).1);
  }

  /** Two records with the same key make the (re)load fail with
      NoUniqueResult, and `findAll` still returns the whole parsed list. */
  lemma DuplicateKeyFailsLoad(dao: Dao, doc: Document, i: int, j: int)
    requires NonEmpty(dao.fileName)
    requires 0 <= i < j < |GetAll(doc).1| && FileKey(GetAll(doc).1[i]) == FileKey(GetAll(doc).1[j])
    ensures Reload(dao, Parsed(doc)).1 == Some(NoUniqueResult)
    ensures FindAll(Reload(dao, Parsed(doc)).0) == GetAll(doc).1
  {
  }

  /** With an empty or missing file name, or no such resource, a reload leaves
      nothing loaded and `findAll` returns the empty list. */
  lemma NothingToLoad(dao: Dao, resource: Resource)
    requires !NonEmpty(dao.fileName) || resource.Absent?
    ensures Reload(dao, resource) == (Dao(dao.fileName, None, map[]), None)
    ensures FindAll(Reload(dao, resource).0) == []
  {
  }
}
