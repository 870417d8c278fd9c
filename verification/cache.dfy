/** The local dataset cache: one stored dataset per id under a cache
    directory, plus the `cache_info.csv` index recording, per id, the request
    URL that produced the stored file and its `date_created`. This module
    holds the index (kept sorted by id, as `sort_index` leaves it), the hit
    test `_cached_dataset_exists` and the index update `_update_stats`. */
module Cache {
  import opened Wrappers
  import opened Strings
  import opened Datasets

  /** One index row's columns: the request fingerprint and the stored
      dataset's `date_created`. */
  datatype Record = Record(request: string, dateCreated: int)

  datatype Row = Row(id: string, rec: Record)

  /** The index file's rows in file order. */
  type Index = seq<Row>

  /** Rows in strictly increasing id order: what `sort_index` leaves, and
      therefore every id at most once. */
  predicate SortedIndex(ix: Index) {
    forall i, j :: 0 <= i < j < |ix| ==> Less(ix[i].id, ix[j].id)
  }

  /** The index read as a mapping from id to record (`df.loc[id]`). */
  function AsMap(ix: Index): map<string, Record> {
    if ix == [] then map[] else AsMap(ix[1..])[ix[0].id := ix[0].rec]
  }

  function Lookup(ix: Index, id: string): Option<Record> {
    var m := AsMap(ix);
    if id in m then Some(m[id]) else None
  }

  lemma {:induction false} AsMapKeys(ix: Index)
    ensures forall id :: id in AsMap(ix) <==> exists i :: 0 <= i < |ix| && ix[i].id == id
  {
    if ix != [] {
      AsMapKeys(ix[1..]);
      forall id
        ensures id in AsMap(ix) <==> exists i :: 0 <= i < |ix| && ix[i].id == id
      {
        if id in AsMap(ix) && id != ix[0].id {
          assert id in AsMap(ix[1..]);
          var i :| 0 <= i < |ix[1..]| && ix[1..][i].id == id;
          assert ix[i + 1].id == id;
        }
        if i :| 0 <= i < |ix| && ix[i].id == id {
          if i > 0 {
            assert ix[1..][i - 1].id == id;
          }
        }
      }
    }
  }

  /** The rows of a sorted index are the entries of its map. */
  lemma {:induction false} AsMapRows(ix: Index, i: nat)
    requires SortedIndex(ix) && i < |ix|
    ensures ix[i].id in AsMap(ix) && AsMap(ix)[ix[i].id] == ix[i].rec
  {
    if i > 0 {
      AsMapRows(ix[1..], i - 1);
      assert ix[0].id != ix[i].id by {
        LessIrreflexive(ix[0].id);
      }
    }
  }

  /** Insert or overwrite the row for `id` in a sorted index. */
  function Upsert(ix: Index, id: string, rec: Record): (r: Index)
    requires SortedIndex(ix)
    ensures SortedIndex(r)
    ensures AsMap(r) == AsMap(ix)[id := rec]
    ensures forall x :: x in r ==> x == Row(id, rec) || x in ix
  {
    if ix == [] then [Row(id, rec)]
    else if ix[0].id == id then
      var r := [Row(id, rec)] + ix[1..];
      SortedTail(ix);
      BelowTail(ix, Row(id, rec));
      PrependSorted(Row(id, rec), ix[1..]);
      r
    else if Less(id, ix[0].id) then
      BelowAll(ix, id);
      PrependSorted(Row(id, rec), ix);
      [Row(id, rec)] + ix
    else
      assert Less(ix[0].id, id) by {
        LessTotal(id, ix[0].id);
      }
      SortedTail(ix);
      var rest := Upsert(ix[1..], id, rec);
      HeadBelowRest(ix, id, rec, rest);
      PrependSorted(ix[0], rest);
      [ix[0]] + rest
  }

  lemma SortedTail(ix: Index)
    requires SortedIndex(ix) && ix != []
    ensures SortedIndex(ix[1..])
  {
    forall i, j | 0 <= i < j < |ix| - 1
      ensures Less(ix[1..][i].id, ix[1..][j].id)
    {
      assert ix[1..][i] == ix[i + 1] && ix[1..][j] == ix[j + 1];
    }
  }

  /** A row before every row of a sorted index keeps it sorted. */
  lemma PrependSorted(x: Row, ix: Index)
    requires SortedIndex(ix)
    requires forall j :: 0 <= j < |ix| ==> Less(x.id, ix[j].id)
    ensures SortedIndex([x] + ix)
  {
    var r := [x] + ix;
    forall i, j | 0 <= i < j < |r|
      ensures Less(r[i].id, r[j].id)
    {
      assert r[j] == ix[j - 1];
      if i > 0 {
        assert r[i] == ix[i - 1];
      }
    }
  }

  /** A row with the head's id is below the rest of a sorted index. */
  lemma BelowTail(ix: Index, x: Row)
    requires SortedIndex(ix) && ix != [] && x.id == ix[0].id
    ensures forall j :: 0 <= j < |ix[1..]| ==> Less(x.id, ix[1..][j].id)
  {
    forall j | 0 <= j < |ix[1..]|
      ensures Less(x.id, ix[1..][j].id)
    {
      assert ix[1..][j] == ix[j + 1];
    }
  }

  /** An id below the head of a sorted index is below all its rows. */
  lemma BelowAll(ix: Index, id: string)
    requires SortedIndex(ix) && ix != [] && Less(id, ix[0].id)
    ensures forall j :: 0 <= j < |ix| ==> Less(id, ix[j].id)
  {
    forall j | 0 < j < |ix|
      ensures Less(id, ix[j].id)
    {
      LessTransitive(id, ix[0].id, ix[j].id);
    }
  }

  /** The head of a sorted index is below every row of an upsert into its
      tail of an id above the head. */
  lemma HeadBelowRest(ix: Index, id: string, rec: Record, rest: Index)
    requires SortedIndex(ix) && ix != [] && Less(ix[0].id, id)
    requires forall x :: x in rest ==> x == Row(id, rec) || x in ix[1..]
    ensures forall j :: 0 <= j < |rest| ==> Less(ix[0].id, rest[j].id)
  {
    forall j | 0 <= j < |rest|
      ensures Less(ix[0].id, rest[j].id)
    {
      assert rest[j] in rest;
      if rest[j] != Row(id, rec) {
        var k :| 0 <= k < |ix[1..]| && ix[1..][k] == rest[j];
        assert ix[k + 1] == rest[j];
      }
    }
  }

  /** A sorted index is determined by its contents: two sorted indexes with
      the same map are the same row sequence. So whatever order rows were
      added in, `sort_index` over the overwritten-or-appended table yields
      exactly `Upsert`'s result. */
  lemma {:induction false} SortedIndexUnique(a: Index, b: Index)
    requires SortedIndex(a) && SortedIndex(b)
    requires AsMap(a) == AsMap(b)
    ensures a == b
  {
    if a != [] && b != [] {
      SameHead(a, b);
      MinimalRowRemoved(a);
      MinimalRowRemoved(b);
      SortedTail(a);
      SortedTail(b);
      SortedIndexUnique(a[1..], b[1..]);
      assert a == [a[0]] + a[1..] && b == [b[0]] + b[1..];
    } else if a != [] {
      AsMapRows(a, 0);
      assert false;
    } else if b != [] {
      AsMapRows(b, 0);
      assert false;
    }
  }

  /** Two sorted indexes with the same map start with the same row: the
      least id of the map. */
  lemma SameHead(a: Index, b: Index)
    requires SortedIndex(a) && SortedIndex(b) && a != [] && b != []
    requires AsMap(a) == AsMap(b)
    ensures a[0] == b[0]
  {
    SameHeadId(a, b);
    AsMapRows(a, 0);
    AsMapRows(b, 0);
  }

  lemma SameHeadId(a: Index, b: Index)
    requires SortedIndex(a) && SortedIndex(b) && a != [] && b != []
    requires AsMap(a) == AsMap(b)
    ensures a[0].id == b[0].id
  {
    AsMapKeys(a);
    AsMapKeys(b);
    assert a[0].id in AsMap(b);
    assert b[0].id in AsMap(a);
    var i :| 0 <= i < |b| && b[i].id == a[0].id;
    var j :| 0 <= j < |a| && a[j].id == b[0].id;
    if i > 0 && j > 0 {
      // b[0] < b[i] = a[0] < a[j] = b[0]
      LessTransitive(b[0].id, a[0].id, b[0].id);
      LessIrreflexive(b[0].id);
      assert false;
    }
  }

  lemma MinimalRowRemoved(ix: Index)
    requires SortedIndex(ix) && ix != []
    ensures AsMap(ix[1..]) == AsMap(ix) - {ix[0].id}
  {
    var m := AsMap(ix[1..]);
    assert ix[0].id !in m by {
      AsMapKeys(ix[1..]);
      if ix[0].id in m {
        var i :| 0 <= i < |ix[1..]| && ix[1..][i].id == ix[0].id;
        assert Less(ix[0].id, ix[i + 1].id);
        LessIrreflexive(ix[0].id);
      }
    }
    assert AsMap(ix) == m[ix[0].id := ix[0].rec];
    assert m[ix[0].id := ix[0].rec] - {ix[0].id} == m;
  }

  // ---------------------------------------------------------------------
  // cache state

  /** What the cache routines see on disk: whether the cache directory
      exists, the stored dataset per id, and the index file (`None` when it
      is missing or cannot be read). */
  datatype CacheState = CacheState(
    dirExists: bool,
    files: map<string, Dataset>,
    index: Option<Index>)

  /** The index, when readable, is in the sorted form `_update_stats` writes. */
  predicate Valid(st: CacheState) {
    st.index.Some? ==> SortedIndex(st.index.value)
  }

  /** The cache's trust condition: a stored file, an index row for the id
      with the same request, a remote date that could be obtained, and a
      stored date that is not older than it. */
  predicate Trustworthy(st: CacheState, id: string, request: string, remoteDate: Option<int>) {
    && st.dirExists
    && id in st.files
    && st.index.Some?
    && Lookup(st.index.value, id).Some?
    && Lookup(st.index.value, id).value.request == request
    && remoteDate.Some?
    && Lookup(st.index.value, id).value.dateCreated >= remoteDate.value
  }

  /** `_cached_dataset_exists(ds_id, request)`. `remoteDate` is what the
      remote `date_created` lookup returned (`None` when it raised). The
      answer is a hit exactly when the cache is trustworthy; the only effect
      is creating a missing cache directory. */
  function CachedDatasetExists(st: CacheState, id: string, request: string, remoteDate: Option<int>): (r: (bool, CacheState))
    ensures r.0 <==> Trustworthy(st, id, request, remoteDate)
    ensures r.1 == st.(dirExists := true)
  {
    if !st.dirExists then (false, st.(dirExists := true))
    else if id !in st.files then (false, st)
    else if st.index.None? then (false, st)
    else match Lookup(st.index.value, id)
      case None => (false, st)
      case Some(stats) =>
        if stats.request != request then (false, st)
        else match remoteDate
          case None => (false, st)
          case Some(remote) => if stats.dateCreated < remote then (false, st) else (true, st)
  }

  /** `_update_stats(ds_id, request)`: record the request and the stored
      dataset's own `date_created` for `id`; an unreadable index is replaced
      by one holding only this row. The source sorts whatever index it reads
      and its rows need not be sorted beforehand. `Valid` is required here
      because `_update_stats` is the only writer of the index and always
      leaves it sorted, so every index it reads is already sorted. */
  function UpdateStats(st: CacheState, id: string, request: string): (r: CacheState)
    requires Valid(st)
    requires id in st.files
    ensures Valid(r) && r.index.Some?
    ensures Lookup(r.index.value, id) == Some(Record(request, st.files[id].dateCreated))
    ensures forall k :: k != id ==> Lookup(r.index.value, k) == (if st.index.Some? then Lookup(st.index.value, k) else None)
    ensures r.dirExists == st.dirExists && r.files == st.files
  {
    var ix := if st.index.Some? then st.index.value else [];
    st.(index := Some(Upsert(ix, id, Record(request, st.files[id].dateCreated))))
  }

  // ---------------------------------------------------------------------
  // properties of the cache protocol

  /** A changed request always misses, whatever the dates. */
  lemma RequestSensitivity(st: CacheState, id: string, request: string, remoteDate: Option<int>)
    requires st.index.Some? && Lookup(st.index.value, id).Some?
    requires Lookup(st.index.value, id).value.request != request
    ensures !CachedDatasetExists(st, id, request, remoteDate).0
  {
  }

  /** A stored date strictly older than the remote one misses. */
  lemma StaleMisses(st: CacheState, id: string, request: string, remote: int)
    requires st.index.Some? && Lookup(st.index.value, id).Some?
    requires Lookup(st.index.value, id).value.dateCreated < remote
    ensures !CachedDatasetExists(st, id, request, Some(remote)).0
  {
  }

  /** A failed remote date lookup misses. */
  lemma FailedCheckMisses(st: CacheState, id: string, request: string)
    ensures !CachedDatasetExists(st, id, request, None).0
  {
  }

  /** A missing cache directory is created and the answer is a miss. */
  lemma MissingDirectoryMisses(st: CacheState, id: string, request: string, remoteDate: Option<int>)
    requires !st.dirExists
    ensures CachedDatasetExists(st, id, request, remoteDate) == (false, st.(dirExists := true))
  {
  }

  /** Recording a download and then checking with the same request hits
      exactly when the remote date is not newer than the stored dataset's,
      and checking with any other request misses. */
  lemma {:induction false} HitAfterUpdate(st: CacheState, id: string, request: string, other: string, remote: int)
    requires Valid(st) && st.dirExists && id in st.files
    requires other != request
    ensures var st' := UpdateStats(st, id, request);
      && (CachedDatasetExists(st', id, request, Some(remote)).0 <==> remote <= st.files[id].dateCreated)
      && !CachedDatasetExists(st', id, other, Some(remote)).0
  {
    var st' := UpdateStats(st, id, request);
    assert Lookup(st'.index.value, id) == Some(Record(request, st.files[id].dateCreated));
  }

  /** Updating twice with the same request and unchanged file is the same as
      updating once. */
  lemma UpdateStatsIdempotent(st: CacheState, id: string, request: string)
    requires Valid(st) && id in st.files
    ensures UpdateStats(UpdateStats(st, id, request), id, request) == UpdateStats(st, id, request)
  {
    var once := UpdateStats(st, id, request);
    var twice := UpdateStats(once, id, request);
    assert AsMap(twice.index.value) == AsMap(once.index.value);
    SortedIndexUnique(twice.index.value, once.index.value);
  }
}
