/** `download_glider_dataset`: select the ids to download, then fetch each
    one, serving delayed-mode datasets from the local cache when the cache
    can be trusted and storing fresh downloads in it. The server is a
    parameter: the request URL it would be asked, what fetching a dataset
    yields and the date its metadata reports. */
module Download {
  import opened Wrappers
  import opened Strings
  import opened Dicts
  import opened Seqs
  import opened Datasets
  import opened Cache

  /** What `e.to_xarray()` produced: the dataset, or an exception, which the
      loop prints before moving on to the next id. */
  datatype Fetch = Fetched(ds: Dataset) | FetchFailed

  /** The server as one download session sees it. `request` is the download
      URL for an id under the session's variables and constraints, and
      `remoteDate` the creation date read from the id's ISO 19115 record
      (`None` when reading it raises). */
  datatype Server = Server(
    request: string -> string,
    fetch: string -> Fetch,
    remoteDate: string -> Option<int>)

  /** The loop state: the cache on disk, the datasets collected so far (in
      insertion order) and the ids fetched from the server, in order. */
  datatype Batch = Batch(cache: CacheState, result: Dict<Dataset>, fetched: seq<string>)

  /** Ids whose name says they are of the wanted kind. */
  predicate Wanted(nrtOnly: bool, delayedOnly: bool, name: string) {
    (nrtOnly ==> Contains(name, "nrt")) && (delayedOnly ==> Contains(name, "delayed"))
  }

  /** The ids to download, in the given order; both flags at once is an
      error. */
  function SelectIds(ids: seq<string>, nrtOnly: bool, delayedOnly: bool): (r: Result<seq<string>>)
    ensures r.Err? <==> nrtOnly && delayedOnly
    ensures r.Ok? ==> r.value == Filter(ids, name => Wanted(nrtOnly, delayedOnly, name))
  {
    if nrtOnly && delayedOnly then Err(ValueError("Cannot set both nrt_only and delayed_only"))
    else if nrtOnly then
      FilterCongruent(ids, name => Contains(name, "nrt"), name => Wanted(nrtOnly, delayedOnly, name));
      Ok(Filter(ids, name => Contains(name, "nrt")))
    else if delayedOnly then
      FilterCongruent(ids, name => Contains(name, "delayed"), name => Wanted(nrtOnly, delayedOnly, name));
      Ok(Filter(ids, name => Contains(name, "delayed")))
    else
      FilterAll(ids, name => Wanted(nrtOnly, delayedOnly, name));
      Ok(ids)
  }

  /** Whether an id goes through the cache. */
  predicate Cached(cacheDatasets: bool, id: string) {
    cacheDatasets && Contains(id, "delayed")
  }

  /** The index row for `id`, `None` also when the index is unreadable. */
  function IndexEntry(st: CacheState, id: string): Option<Record> {
    if st.index.Some? then Lookup(st.index.value, id) else None
  }

  /** One iteration of the download loop. */
  function Step(b: Batch, id: string, cacheDatasets: bool, server: Server): (r: Batch)
    requires Valid(b.cache)
    ensures Valid(r.cache)
    ensures forall k :: k != id ==> Get(r.result, k) == Get(b.result, k)
    ensures Keys(r.result) == Keys(b.result) || Keys(r.result) == Keys(b.result) + [id]
    ensures UniqueKeys(b.result) ==> UniqueKeys(r.result)
    ensures server.fetch(id).Fetched? ==> id in Keys(r.result)
    // either served from the cache, exactly when the cache check passes, or fetched once
    ensures Cached(cacheDatasets, id) ==>
      (r.fetched == b.fetched <==> Trustworthy(b.cache, id, server.request(id), server.remoteDate(id)))
    ensures Cached(cacheDatasets, id) ==>
      (id in Keys(r.result) <==>
        id in Keys(b.result) || Trustworthy(b.cache, id, server.request(id), server.remoteDate(id))
        || server.fetch(id).Fetched?)
    ensures r.fetched == b.fetched ==>
      && Cached(cacheDatasets, id) && id in b.cache.files
      && Get(r.result, id) == Some(b.cache.files[id])
    ensures r.fetched != b.fetched ==> r.fetched == b.fetched + [id] && match server.fetch(id)
      case Fetched(ds) => Get(r.result, id) == Some(Normalize(ds))
      case FetchFailed => Get(r.result, id) == Get(b.result, id)
    // ids that bypass the cache never touch it
    ensures !Cached(cacheDatasets, id) ==> r.cache == b.cache && r.fetched == b.fetched + [id]
    ensures forall k :: k != id ==> IndexEntry(r.cache, k) == IndexEntry(b.cache, k)
    ensures forall k :: k != id ==> (k in r.cache.files <==> k in b.cache.files)
    ensures forall k :: k != id && k in b.cache.files ==> r.cache.files[k] == b.cache.files[k]
  {
    if Cached(cacheDatasets, id) then
      var request := server.request(id);
      var (hit, c1) := CachedDatasetExists(b.cache, id, request, server.remoteDate(id));
      if hit then
        b.(cache := c1, result := Set(b.result, id, c1.files[id]))
      else
        match server.fetch(id)
        case FetchFailed => b.(cache := c1, fetched := b.fetched + [id])
        case Fetched(ds) =>
          var clean := Normalize(ds);
          var c2 := c1.(files := c1.files[id := clean]);
          Batch(UpdateStats(c2, id, request), Set(b.result, id, clean), b.fetched + [id])
    else
      match server.fetch(id)
      case FetchFailed => b.(fetched := b.fetched + [id])
      case Fetched(ds) => b.(result := Set(b.result, id, Normalize(ds)), fetched := b.fetched + [id])
  }

  /** The loop over the ids, in order. */
  function Run(b: Batch, ids: seq<string>, cacheDatasets: bool, server: Server): (r: Batch)
    requires Valid(b.cache)
    ensures Valid(r.cache)
    ensures UniqueKeys(b.result) ==> UniqueKeys(r.result)
    ensures |r.fetched| <= |b.fetched| + |ids|
  {
    if ids == [] then b
    else Step(Run(b, ids[..|ids| - 1], cacheDatasets, server), ids[|ids| - 1], cacheDatasets, server)
  }

  /** `download_glider_dataset(dataset_ids, nrt_only=.., delayed_only=..,
      cache_datasets=.., adcp=False)` on a given cache: the collected
      datasets, the cache afterwards and the ids that were downloaded. */
  function DownloadGliderDataset(ids: seq<string>, nrtOnly: bool, delayedOnly: bool, cacheDatasets: bool,
                                 st: CacheState, server: Server): (r: Result<Batch>)
    requires Valid(st)
    ensures r.Err? <==> nrtOnly && delayedOnly
    ensures r.Ok? ==> Valid(r.value.cache) && UniqueKeys(r.value.result)
    ensures r.Ok? ==> SubSeq(Keys(r.value.result), ids)
    ensures r.Ok? ==> forall k :: k in Keys(r.value.result) ==> Wanted(nrtOnly, delayedOnly, k)
  {
    var selected :- SelectIds(ids, nrtOnly, delayedOnly);
    var start := Batch(st, [], []);
    var b := Run(start, selected, cacheDatasets, server);
    RunKeyOrder(start, selected, cacheDatasets, server);
    SubSeqTransitive(Keys(b.result), selected, ids);
    forall k | k in Keys(b.result)
      ensures Wanted(nrtOnly, delayedOnly, k)
    {
      RunKeysFromIds(start, selected, cacheDatasets, server, k);
    }
    Ok(b)
  }

  /** Which selected ids the download returns: one that bypasses the cache
      exactly when its fetch succeeds, holding the cleaned, time-sorted
      dataset; one that goes through the cache exactly when its fetch
      succeeds or the cache check passes on one of its visits. */
  lemma DownloadCollects(ids: seq<string>, nrtOnly: bool, delayedOnly: bool, cacheDatasets: bool,
                         st: CacheState, server: Server, k: string)
    requires Valid(st) && !(nrtOnly && delayedOnly)
    requires k in ids && Wanted(nrtOnly, delayedOnly, k)
    ensures var sel := SelectIds(ids, nrtOnly, delayedOnly).value;
      var r := DownloadGliderDataset(ids, nrtOnly, delayedOnly, cacheDatasets, st, server).value;
      && (!Cached(cacheDatasets, k) ==>
          && (k in Keys(r.result) <==> server.fetch(k).Fetched?)
          && (server.fetch(k).Fetched? ==> Get(r.result, k) == Some(Normalize(server.fetch(k).ds))))
      && (Cached(cacheDatasets, k) ==>
          (k in Keys(r.result) <==>
            server.fetch(k).Fetched? ||
            exists j :: 0 <= j < |sel| && sel[j] == k && HitAt(Batch(st, [], []), sel, cacheDatasets, server, k, j)))
  {
    var sel := SelectIds(ids, nrtOnly, delayedOnly).value;
    var start := Batch(st, [], []);
    assert k in sel;
    assert Keys(start.result) == [];
    assert DownloadGliderDataset(ids, nrtOnly, delayedOnly, cacheDatasets, st, server).value
      == Run(start, sel, cacheDatasets, server);
    if Cached(cacheDatasets, k) {
      RunCachedIff(start, sel, cacheDatasets, server, k);
    } else {
      RunUncachedIff(start, sel, cacheDatasets, server, k);
    }
  }

  // ---------------------------------------------------------------------
  // properties of the loop

  /** The collected keys are the initial ones followed by a selection of
      the processed ids, in processing order. */
  lemma {:induction false} RunKeyOrder(b: Batch, ids: seq<string>, cacheDatasets: bool, server: Server)
    requires Valid(b.cache)
    ensures var ks := Keys(Run(b, ids, cacheDatasets, server).result);
      Keys(b.result) <= ks && SubSeq(ks[|Keys(b.result)|..], ids)
  {
    if ids == [] {
      var ks := Keys(b.result);
      SubSeqEmpty(ids);
      assert ks[|ks|..] == [];
    } else {
      var init, id := ids[..|ids| - 1], ids[|ids| - 1];
      assert ids == init + [id];
      var before := Run(b, init, cacheDatasets, server);
      RunKeyOrder(b, init, cacheDatasets, server);
      GrowKeys(Keys(b.result), Keys(before.result), Keys(Step(before, id, cacheDatasets, server).result), init, id);
    }
  }

  lemma GrowKeys(k0: seq<string>, ks: seq<string>, ks': seq<string>, init: seq<string>, id: string)
    requires k0 <= ks && SubSeq(ks[|k0|..], init)
    requires ks' == ks || ks' == ks + [id]
    ensures k0 <= ks' && SubSeq(ks'[|k0|..], init + [id])
  {
    var tail := ks[|k0|..];
    if ks' == ks {
      SubSeqExtend(tail, init, id);
    } else {
      assert ks'[|k0|..] == tail + [id];
      SubSeqSnoc(tail, init, id);
    }
  }

  /** Every collected key was there before or is one of the ids. */
  lemma {:induction false} RunKeysFromIds(b: Batch, ids: seq<string>, cacheDatasets: bool, server: Server, k: string)
    requires Valid(b.cache)
    requires k in Keys(Run(b, ids, cacheDatasets, server).result)
    ensures k in Keys(b.result) || k in ids
  {
    RunKeyOrder(b, ids, cacheDatasets, server);
    PrefixThenSubSeq(Keys(b.result), Keys(Run(b, ids, cacheDatasets, server).result), ids, k);
  }

  /** A member of a sequence made of a prefix and a selection from `ids`
      is in one of the two. */
  lemma PrefixThenSubSeq(pre: seq<string>, ks: seq<string>, ids: seq<string>, k: string)
    requires pre <= ks && SubSeq(ks[|pre|..], ids) && k in ks
    ensures k in pre || k in ids
  {
    var n := |pre|;
    var i :| 0 <= i < |ks| && ks[i] == k;
    if i >= n {
      SubSeqMember(ks[n..], ids, i - n);
      assert ks[n..][i - n] == k;
    } else {
      assert pre[i] == k;
    }
  }

  /** Every id whose download succeeds ends up in the result. */
  lemma {:induction false} RunKeepsSuccesses(b: Batch, ids: seq<string>, cacheDatasets: bool, server: Server, k: string)
    requires Valid(b.cache)
    requires k in ids && server.fetch(k).Fetched?
    ensures k in Keys(Run(b, ids, cacheDatasets, server).result)
  {
    var init, id := ids[..|ids| - 1], ids[|ids| - 1];
    assert ids == init + [id];
    if id != k {
      RunKeepsSuccesses(b, init, cacheDatasets, server, k);
      var before := Run(b, init, cacheDatasets, server);
      assert Get(before.result, k).Some?;
    }
  }

  /** An id that bypasses the cache and was not collected before is
      collected exactly when its download succeeds, holding the cleaned,
      time-sorted dataset. */
  lemma {:induction false} RunUncachedIff(b: Batch, ids: seq<string>, cacheDatasets: bool, server: Server, k: string)
    requires Valid(b.cache)
    requires k in ids && k !in Keys(b.result) && !Cached(cacheDatasets, k)
    ensures var r := Run(b, ids, cacheDatasets, server);
      && (k in Keys(r.result) <==> server.fetch(k).Fetched?)
      && (server.fetch(k).Fetched? ==> Get(r.result, k) == Some(Normalize(server.fetch(k).ds)))
  {
    var init, id := ids[..|ids| - 1], ids[|ids| - 1];
    assert ids == init + [id];
    var before := Run(b, init, cacheDatasets, server);
    if id != k {
      RunUncachedIff(b, init, cacheDatasets, server, k);
      assert Get(Step(before, id, cacheDatasets, server).result, k) == Get(before.result, k);
    } else if k in init {
      RunUncachedIff(b, init, cacheDatasets, server, k);
    } else {
      RunUntouchedKey(b, init, cacheDatasets, server, k);
    }
  }

  /** Whether the cache check passes for `k` at the `j`th id of a run. */
  predicate HitAt(b: Batch, ids: seq<string>, cacheDatasets: bool, server: Server, k: string, j: nat)
    requires Valid(b.cache) && j <= |ids|
  {
    Trustworthy(Run(b, ids[..j], cacheDatasets, server).cache, k, server.request(k), server.remoteDate(k))
  }

  /** An id that goes through the cache and was not collected before is
      collected exactly when the cache check passes on one of its visits or
      its download succeeds. */
  lemma {:induction false} RunCachedIff(b: Batch, ids: seq<string>, cacheDatasets: bool, server: Server, k: string)
    requires Valid(b.cache)
    requires k in ids && k !in Keys(b.result) && Cached(cacheDatasets, k)
    ensures k in Keys(Run(b, ids, cacheDatasets, server).result) <==>
      server.fetch(k).Fetched? || exists j :: 0 <= j < |ids| && ids[j] == k && HitAt(b, ids, cacheDatasets, server, k, j)
  {
    var n := |ids| - 1;
    var init, id := ids[..n], ids[n];
    assert ids == init + [id];
    assert ids[..n] == init;
    var before := Run(b, init, cacheDatasets, server);
    forall j | 0 <= j < n
      ensures ids[j] == init[j] && ids[..j] == init[..j]
    {
    }
    if k in init {
      RunCachedIff(b, init, cacheDatasets, server, k);
      if id == k {
        assert HitAt(b, ids, cacheDatasets, server, k, n) == HitAt(b, init, cacheDatasets, server, k, n) by {
          assert init[..n] == init;
        }
      }
      HitsExtend(b, ids, init, cacheDatasets, server, k);
    } else {
      assert id == k;
      RunUntouchedKey(b, init, cacheDatasets, server, k);
    }
  }

  /** The visits to `k` among the first ids of a run are its visits among
      `init`, with the cache states of the same prefixes. */
  lemma HitsExtend(b: Batch, ids: seq<string>, init: seq<string>, cacheDatasets: bool, server: Server, k: string)
    requires Valid(b.cache) && |ids| > 0 && init == ids[..|ids| - 1]
    ensures (exists j :: 0 <= j < |init| && init[j] == k && HitAt(b, init, cacheDatasets, server, k, j)) <==>
      (exists j :: 0 <= j < |init| && ids[j] == k && HitAt(b, ids, cacheDatasets, server, k, j))
  {
    forall j | 0 <= j < |init|
      ensures ids[j] == init[j]
      ensures HitAt(b, init, cacheDatasets, server, k, j) == HitAt(b, ids, cacheDatasets, server, k, j)
    {
      assert ids[..j] == init[..j];
    }
  }

  /** A key none of the ids names keeps its value. */
  lemma {:induction false} RunUntouchedKey(b: Batch, ids: seq<string>, cacheDatasets: bool, server: Server, k: string)
    requires Valid(b.cache)
    requires k !in ids
    ensures Get(Run(b, ids, cacheDatasets, server).result, k) == Get(b.result, k)
  {
    if ids != [] {
      var init := ids[..|ids| - 1];
      assert ids == init + [ids[|ids| - 1]];
      RunUntouchedKey(b, init, cacheDatasets, server, k);
    }
  }

  /** The cache is touched only for processed ids that go through it: every
      other id keeps its stored file and its index row. With no such id at
      all the cache is left exactly as it was, so near-real-time datasets
      are never cached. */
  lemma {:induction false} RunCacheFrame(b: Batch, ids: seq<string>, cacheDatasets: bool, server: Server, k: string)
    requires Valid(b.cache)
    requires k !in ids || !Cached(cacheDatasets, k)
    ensures var c := Run(b, ids, cacheDatasets, server).cache;
      && IndexEntry(c, k) == IndexEntry(b.cache, k)
      && (k in c.files <==> k in b.cache.files)
      && (k in b.cache.files ==> c.files[k] == b.cache.files[k])
  {
    if ids != [] {
      var init := ids[..|ids| - 1];
      assert ids == init + [ids[|ids| - 1]];
      RunCacheFrame(b, init, cacheDatasets, server, k);
    }
  }

  lemma {:induction false} RunUncachedLeavesCache(b: Batch, ids: seq<string>, cacheDatasets: bool, server: Server)
    requires Valid(b.cache)
    requires forall i :: 0 <= i < |ids| ==> !Cached(cacheDatasets, ids[i])
    ensures Run(b, ids, cacheDatasets, server).cache == b.cache
    ensures Run(b, ids, cacheDatasets, server).fetched == b.fetched + ids
  {
    if ids != [] {
      var init := ids[..|ids| - 1];
      assert ids == init + [ids[|ids| - 1]];
      RunUncachedLeavesCache(b, init, cacheDatasets, server);
    }
  }

  /** What a cached id's entry in the result agrees with: it is the stored
      file, and the index records it under the request the server would be
      asked now. */
  predicate Recorded(b: Batch, cacheDatasets: bool, server: Server) {
    forall k :: k in Keys(b.result) && Cached(cacheDatasets, k) ==>
      && k in b.cache.files
      && Get(b.result, k) == Some(b.cache.files[k])
      && IndexEntry(b.cache, k).Some?
      && IndexEntry(b.cache, k).value.request == server.request(k)
  }

  lemma StepRecorded(b: Batch, id: string, cacheDatasets: bool, server: Server)
    requires Valid(b.cache) && Recorded(b, cacheDatasets, server)
    ensures Recorded(Step(b, id, cacheDatasets, server), cacheDatasets, server)
  {
    var r := Step(b, id, cacheDatasets, server);
    forall k | k in Keys(r.result) && Cached(cacheDatasets, k)
      ensures k in r.cache.files && Get(r.result, k) == Some(r.cache.files[k])
      ensures IndexEntry(r.cache, k).Some? && IndexEntry(r.cache, k).value.request == server.request(k)
    {
      if k != id {
        assert k in Keys(b.result) by {
          assert Get(r.result, k) == Get(b.result, k);
        }
      }
    }
  }

  /** Every cached id in the result is backed by its stored file and
      recorded under its request. */
  lemma {:induction false} RunRecorded(b: Batch, ids: seq<string>, cacheDatasets: bool, server: Server)
    requires Valid(b.cache) && Recorded(b, cacheDatasets, server)
    ensures Recorded(Run(b, ids, cacheDatasets, server), cacheDatasets, server)
  {
    if ids != [] {
      var init := ids[..|ids| - 1];
      RunRecorded(b, init, cacheDatasets, server);
      StepRecorded(Run(b, init, cacheDatasets, server), ids[|ids| - 1], cacheDatasets, server);
    }
  }

  /** Every stored file and every collected dataset has its `obs`
      dimension swapped for `time` and is sorted by time. */
  predicate AllNormalized(b: Batch) {
    && (forall k :: k in b.cache.files ==> Normalized(b.cache.files[k]))
    && (forall p :: p in b.result ==> Normalized(p.1))
  }

  lemma StepNormalized(b: Batch, id: string, cacheDatasets: bool, server: Server)
    requires Valid(b.cache) && AllNormalized(b)
    ensures AllNormalized(Step(b, id, cacheDatasets, server))
  {
    if Cached(cacheDatasets, id) {
      var request := server.request(id);
      var (hit, c1) := CachedDatasetExists(b.cache, id, request, server.remoteDate(id));
      if hit {
        SetMembers(b.result, id, c1.files[id]);
      } else if server.fetch(id).Fetched? {
        SetMembers(b.result, id, Normalize(server.fetch(id).ds));
      }
    } else if server.fetch(id).Fetched? {
      SetMembers(b.result, id, Normalize(server.fetch(id).ds));
    }
  }

  /** Normalized files and results stay normalized over a whole run. */
  lemma {:induction false} RunNormalized(b: Batch, ids: seq<string>, cacheDatasets: bool, server: Server)
    requires Valid(b.cache) && AllNormalized(b)
    ensures AllNormalized(Run(b, ids, cacheDatasets, server))
  {
    if ids != [] {
      var init := ids[..|ids| - 1];
      RunNormalized(b, init, cacheDatasets, server);
      StepNormalized(Run(b, init, cacheDatasets, server), ids[|ids| - 1], cacheDatasets, server);
    }
  }

  /** The second visit of a cached id whose download succeeds and whose
      remote date is not newer than the downloaded one is a cache hit that
      changes nothing: each such id is downloaded at most once per run. */
  lemma RepeatIsHit(b: Batch, id: string, cacheDatasets: bool, server: Server, ds: Dataset, d: int)
    requires Valid(b.cache) && Cached(cacheDatasets, id)
    requires server.fetch(id) == Fetched(ds) && server.remoteDate(id) == Some(d) && d <= ds.dateCreated
    ensures var once := Step(b, id, cacheDatasets, server);
      Step(once, id, cacheDatasets, server) == once
  {
    var once := Step(b, id, cacheDatasets, server);
    var request := server.request(id);
    assert Trustworthy(once.cache, id, request, Some(d));
    SetUnchanged(once.result, id, once.cache.files[id]);
  }
}
