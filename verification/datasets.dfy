/** Datasets as they come back from the data service, and the pure
    transformations applied to them before they are cached or returned:
    dimension cleanup for CF discrete-sampling-geometry data (`_clean_dims`),
    sorting by time, decoding the contiguous ragged `rowSize` array into a
    per-observation profile number (`add_profile_time`), and the ADCP id and
    attribute merge of `add_adcp_data`. */
module Datasets {
  import opened Wrappers
  import opened Strings
  import opened Dicts
  import opened Values
  import opened Seqs

  /** One observation: its timestamp and the values of the data variables. */
  datatype Obs = Obs(time: int, row: seq<int>)

  /** A materialized dataset: dimension sizes by name, observations in
      storage order, the `date_created` attribute (as an integer instant) and
      the remaining global attributes. */
  datatype Dataset = Dataset(
    sizes: map<string, nat>,
    obs: seq<Obs>,
    dateCreated: int,
    attrs: Dict<Value>)

  // ---------------------------------------------------------------------
  // _clean_dims

  const Obs_ := "obs"
  const Time := "time"
  const Timeseries := "timeseries"

  /** `_clean_dims` on the dimension sizes: drop `timeseries` when `obs` is
      also present, then swap `obs` for `time` (same length). */
  function CleanDims(sizes: map<string, nat>): (r: map<string, nat>)
    ensures Obs_ !in r
    ensures Timeseries in r <==> Timeseries in sizes && Obs_ !in sizes
    ensures Obs_ in sizes ==> Time in r && r[Time] == sizes[Obs_]
    ensures Obs_ !in sizes ==> r == sizes
    ensures forall k :: k in sizes && k != Obs_ && k != Time && k != Timeseries ==> k in r && r[k] == sizes[k]
    ensures forall k :: k in r ==> k in sizes || k == Time
  {
    var d := if Timeseries in sizes && Obs_ in sizes then sizes - {Timeseries} else sizes;
    if Obs_ in d then (d - {Obs_})[Time := d[Obs_]] else d
  }

  /** Cleaning twice is cleaning once. */
  lemma CleanDimsIdempotent(sizes: map<string, nat>)
    ensures CleanDims(CleanDims(sizes)) == CleanDims(sizes)
  {
  }

  function CleanDataset(ds: Dataset): (r: Dataset)
    ensures Obs_ !in r.sizes
    ensures r.obs == ds.obs && r.dateCreated == ds.dateCreated && r.attrs == ds.attrs
  {
    ds.(sizes := CleanDims(ds.sizes))
  }

  // ---------------------------------------------------------------------
  // sortby("time")

  predicate SortedByTime(s: seq<Obs>) {
    forall i, j :: 0 <= i < j < |s| ==> s[i].time <= s[j].time
  }

  /** Insert `o` into time-sorted `t` after every observation not later than it. */
  function InsertByTime(t: seq<Obs>, o: Obs): (r: seq<Obs>)
    requires SortedByTime(t)
    ensures SortedByTime(r)
    ensures multiset(r) == multiset(t) + multiset{o}
    ensures |r| == |t| + 1
    ensures forall i :: 0 <= i < |r| ==> r[i] == o || r[i] in t
  {
    if t == [] || t[|t| - 1].time <= o.time then
      AppendSorted(t, o);
      t + [o]
    else
      var init, last := t[..|t| - 1], t[|t| - 1];
      assert t == init + [last];
      var rec := InsertByTime(init, o);
      InsertStep(t, init, last, o, rec);
      rec + [last]
  }

  /** The recursive case of `InsertByTime`: `o` went into the observations
      before the last one, which is later than `o`. */
  lemma InsertStep(t: seq<Obs>, init: seq<Obs>, last: Obs, o: Obs, rec: seq<Obs>)
    requires t == init + [last] && SortedByTime(t) && o.time < last.time
    requires SortedByTime(rec) && multiset(rec) == multiset(init) + multiset{o}
    requires |rec| == |init| + 1 && forall i :: 0 <= i < |rec| ==> rec[i] == o || rec[i] in init
    ensures SortedByTime(rec + [last])
    ensures multiset(rec + [last]) == multiset(t) + multiset{o}
    ensures forall i :: 0 <= i < |rec + [last]| ==> (rec + [last])[i] == o || (rec + [last])[i] in t
  {
    forall i | 0 <= i < |rec|
      ensures rec[i].time <= last.time
    {
      if rec[i] != o {
        var j :| 0 <= j < |init| && init[j] == rec[i];
        assert t[j] == init[j] && t[|init|] == last;
      }
    }
    AppendSorted(rec, last);
    var r := rec + [last];
    assert forall i :: 0 <= i < |rec| ==> r[i] == rec[i];
    assert forall x :: x in init ==> x in t;
  }

  /** Appending an observation not earlier than all others keeps time order. */
  lemma AppendSorted(p: seq<Obs>, x: Obs)
    requires SortedByTime(p)
    requires forall i :: 0 <= i < |p| ==> p[i].time <= x.time
    ensures SortedByTime(p + [x])
  {
    var r := p + [x];
    forall i, j | 0 <= i < j < |r|
      ensures r[i].time <= r[j].time
    {
      assert r[i] == p[i];
      if j < |p| {
        assert r[j] == p[j];
      }
    }
  }

  /** `ds.sortby("time")` on the observations: a stable sort by timestamp. */
  function SortByTime(s: seq<Obs>): (r: seq<Obs>)
    ensures SortedByTime(r)
    ensures multiset(r) == multiset(s)
  {
    if s == [] then []
    else
      assert s == s[..|s| - 1] + [s[|s| - 1]];
      InsertByTime(SortByTime(s[..|s| - 1]), s[|s| - 1])
  }

  /** The observations taken at time `t`. */
  function AtTime(t: int): Obs -> bool {
    (o: Obs) => o.time == t
  }

  /** Inserting `o` adds it after the observations already there with the
      same time, and moves no other observation past one of equal time. */
  lemma {:induction false} InsertByTimeStable(t: seq<Obs>, o: Obs, tm: int)
    requires SortedByTime(t)
    ensures Filter(InsertByTime(t, o), AtTime(tm)) == Filter(t, AtTime(tm)) + Filter([o], AtTime(tm))
  {
    var p := AtTime(tm);
    var fo := Filter([o], p);
    FilterSingle(o, p);
    if t == [] || t[|t| - 1].time <= o.time {
      FilterSnoc(t, o, p);
    } else {
      var init, last := t[..|t| - 1], t[|t| - 1];
      assert t == init + [last];
      SortedInit(t);
      var rec := InsertByTime(init, o);
      assert InsertByTime(t, o) == rec + [last];
      InsertByTimeStable(init, o, tm);
      InsertStepStable(init, last, o, rec, tm);
    }
  }

  /** The recursive case of `InsertByTimeStable`: `o` went before `last`,
      which is later than `o`, so at most one of them is taken at `tm`. */
  lemma InsertStepStable(init: seq<Obs>, last: Obs, o: Obs, rec: seq<Obs>, tm: int)
    requires o.time < last.time
    requires Filter(rec, AtTime(tm)) == Filter(init, AtTime(tm)) + Filter([o], AtTime(tm))
    ensures Filter(rec + [last], AtTime(tm)) == Filter(init + [last], AtTime(tm)) + Filter([o], AtTime(tm))
  {
    var p := AtTime(tm);
    var fo := Filter([o], p);
    FilterSingle(o, p);
    var fl := if p(last) then [last] else [];
    calc {
      Filter(rec + [last], p);
      { FilterSnoc(rec, last, p); }
      Filter(rec, p) + fl;
      (Filter(init, p) + fo) + fl;
      { SwapEmpty(Filter(init, p), fo, fl); }
      (Filter(init, p) + fl) + fo;
      { FilterSnoc(init, last, p); }
      Filter(init + [last], p) + fo;
    }
  }

  /** Selecting from a single observation keeps it exactly when it is selected. */
  lemma FilterSingle(o: Obs, p: Obs -> bool)
    ensures Filter([o], p) == if p(o) then [o] else []
  {
    assert [o][1..] == [];
  }

  /** Dropping the last observation keeps time order. */
  lemma SortedInit(t: seq<Obs>)
    requires SortedByTime(t) && t != []
    ensures SortedByTime(t[..|t| - 1])
  {
    var init := t[..|t| - 1];
    forall i, j | 0 <= i < j < |init|
      ensures init[i].time <= init[j].time
    {
      assert init[i] == t[i] && init[j] == t[j];
    }
  }

  /** Two appended pieces commute when one of them is empty. */
  lemma SwapEmpty(a: seq<Obs>, x: seq<Obs>, y: seq<Obs>)
    requires x == [] || y == []
    ensures (a + x) + y == (a + y) + x
  {
    if x == [] {
      assert a + x == a && a + y + x == a + y;
    } else {
      assert a + y == a && a + x + y == a + x;
    }
  }

  /** The sort is stable: for every time, the observations taken at that
      time come out in their original relative order. */
  lemma {:induction false} SortByTimeStable(s: seq<Obs>, tm: int)
    ensures Filter(SortByTime(s), AtTime(tm)) == Filter(s, AtTime(tm))
  {
    if s != [] {
      var init, last := s[..|s| - 1], s[|s| - 1];
      assert s == init + [last];
      SortByTimeStable(init, tm);
      InsertByTimeStable(SortByTime(init), last, tm);
      FilterSnoc(init, last, AtTime(tm));
      assert Filter([last], AtTime(tm)) == if last.time == tm then [last] else [] by {
        assert [last][1..] == [];
      }
    }
  }

  /** Sorting data that is already in time order leaves it unchanged. */
  lemma {:induction false} SortByTimeSorted(s: seq<Obs>)
    requires SortedByTime(s)
    ensures SortByTime(s) == s
  {
    if s != [] {
      var init, last := s[..|s| - 1], s[|s| - 1];
      assert s == init + [last];
      assert SortedByTime(init) by {
        forall i, j | 0 <= i < j < |init|
          ensures init[i].time <= init[j].time
        {
          assert init[i] == s[i] && init[j] == s[j];
        }
      }
      SortByTimeSorted(init);
      if init != [] {
        assert init[|init| - 1] == s[|s| - 2];
      }
      assert InsertByTime(init, last) == init + [last];
    }
  }

  /** Sorting is idempotent. */
  lemma SortByTimeIdempotent(s: seq<Obs>)
    ensures SortByTime(SortByTime(s)) == SortByTime(s)
  {
    SortByTimeSorted(SortByTime(s));
  }

  function SortDataset(ds: Dataset): (r: Dataset)
    ensures SortedByTime(r.obs) && multiset(r.obs) == multiset(ds.obs)
    ensures r.sizes == ds.sizes && r.dateCreated == ds.dateCreated && r.attrs == ds.attrs
  {
    ds.(obs := SortByTime(ds.obs))
  }

  /** The state every dataset is in after the download routine's
      normalisation: no `obs` dimension left and observations in time order. */
  predicate Normalized(ds: Dataset) {
    Obs_ !in ds.sizes && SortedByTime(ds.obs)
  }

  /** `_clean_dims` followed by `sortby("time")`, as both download paths apply
      them to a freshly fetched dataset. */
  function Normalize(ds: Dataset): (r: Dataset)
    ensures Normalized(r)
    ensures multiset(r.obs) == multiset(ds.obs)
    ensures r.dateCreated == ds.dateCreated && r.attrs == ds.attrs
  {
    SortDataset(CleanDataset(ds))
  }

  /** Normalising a normalised dataset changes nothing. */
  lemma NormalizeIdempotent(ds: Dataset)
    requires Normalized(ds)
    ensures Normalize(ds) == ds
  {
    SortByTimeSorted(ds.obs);
  }

  // ---------------------------------------------------------------------
  // rowSize expansion (contiguous ragged array)

  /** `v` repeated `k` times. */
  function Repeat(v: int, k: nat): (r: seq<int>)
    ensures |r| == k
    ensures forall j :: 0 <= j < k ==> r[j] == v
  {
    if k == 0 then [] else Repeat(v, k - 1) + [v]
  }

  /** The first `n` positions of `s`, padded with zeros when `s` is shorter:
      what a zero-initialised array of length `n` holds after `s` is written
      into it from position 0, numpy truncating writes past the end. */
  function Fit(s: seq<int>, n: nat): (r: seq<int>)
    ensures |r| == n
    ensures forall j :: 0 <= j < n && j < |s| ==> r[j] == s[j]
    ensures forall j :: |s| <= j < n ==> r[j] == 0
  {
    if |s| >= n then s[..n] else s + Repeat(0, n - |s|)
  }

  /** The decoded ragged array: profile `i`'s number repeated over its
      `rowSize[i]` observations, profiles laid end to end. */
  function Flatten(profileIndex: seq<int>, rowSize: seq<nat>): seq<int>
    requires |rowSize| >= |profileIndex|
  {
    if profileIndex == [] then []
    else
      var k := |profileIndex| - 1;
      Flatten(profileIndex[..k], rowSize) + Repeat(profileIndex[k], rowSize[k])
  }

  /** The sum of the first `i` row sizes: where profile `i` starts. */
  function Offset(rowSize: seq<nat>, i: nat): nat
    requires i <= |rowSize|
  {
    if i == 0 then 0 else Offset(rowSize, i - 1) + rowSize[i - 1]
  }

  /** The decoding is the CF contiguous ragged array layout: it is as long as
      all rows together, and observation `Offset(i) + k` of profile `i`
      carries that profile's number. */
  lemma {:induction false} FlattenLayout(profileIndex: seq<int>, rowSize: seq<nat>, i: nat, k: nat)
    requires |rowSize| >= |profileIndex|
    requires i < |profileIndex| && k < rowSize[i]
    ensures |Flatten(profileIndex, rowSize)| == Offset(rowSize, |profileIndex|)
    ensures Offset(rowSize, i) + k < |Flatten(profileIndex, rowSize)|
    ensures Flatten(profileIndex, rowSize)[Offset(rowSize, i) + k] == profileIndex[i]
  {
    FlattenLength(profileIndex, rowSize);
    var n := |profileIndex| - 1;
    var init := profileIndex[..n];
    FlattenLength(init, rowSize);
    if i < n {
      OffsetMonotone(rowSize, i + 1, n);
      assert init[i] == profileIndex[i];
      FlattenLayout(init, rowSize, i, k);
    }
  }

  lemma {:induction false} FlattenLength(profileIndex: seq<int>, rowSize: seq<nat>)
    requires |rowSize| >= |profileIndex|
    ensures |Flatten(profileIndex, rowSize)| == Offset(rowSize, |profileIndex|)
  {
    if profileIndex != [] {
      FlattenLength(profileIndex[..|profileIndex| - 1], rowSize);
    }
  }

  lemma {:induction false} OffsetMonotone(rowSize: seq<nat>, i: nat, j: nat)
    requires i <= j <= |rowSize|
    ensures Offset(rowSize, i) <= Offset(rowSize, j)
    decreases j - i
  {
    if i < j {
      OffsetMonotone(rowSize, i, j - 1);
    }
  }

  /** numpy's `a[lo:hi] = v` on a one-dimensional array. */
  function AssignSlice(a: seq<int>, lo: nat, hi: nat, v: int): (r: seq<int>)
    ensures |r| == |a|
  {
    seq(|a|, j requires 0 <= j < |a| => if lo <= j < hi then v else a[j])
  }

  /** The first loop of `add_profile_time`: start from zeros the length of
      the observation axis and write each profile's number over its
      `rowSize` slice. The result is the ragged-array decoding, cut or
      zero-padded to `n` observations. A `rowSize` shorter than
      `profile_index` would make the source raise `IndexError`. That case is
      excluded, because a contiguous ragged array in the CF conventions
      (section 9.3.3) holds both variables along the profile dimension. */
  method ExpandRowSize(n: nat, profileIndex: seq<int>, rowSize: seq<nat>) returns (num: seq<int>)
    requires |rowSize| >= |profileIndex|
    ensures |num| == n
    ensures forall j :: 0 <= j < n ==>
      num[j] == if j < |Flatten(profileIndex, rowSize)| then Flatten(profileIndex, rowSize)[j] else 0
  {
    num := Repeat(0, n);
    var start: nat := 0;
    for i := 0 to |profileIndex|
      invariant start == |Flatten(profileIndex[..i], rowSize)|
      invariant num == Fit(Flatten(profileIndex[..i], rowSize), n)
    {
      var flat := Flatten(profileIndex[..i], rowSize);
      var rs := rowSize[i];
      assert profileIndex[..i + 1][..i] == profileIndex[..i];
      assert Flatten(profileIndex[..i + 1], rowSize) == flat + Repeat(profileIndex[i], rs);
      FitExtend(flat, profileIndex[i], rs, n);
      num := AssignSlice(num, start, start + rs, profileIndex[i]);
      start := start + rs;
    }
    assert profileIndex[..|profileIndex|] == profileIndex;
  }

  lemma FitExtend(s: seq<int>, v: int, k: nat, n: nat)
    ensures Fit(s + Repeat(v, k), n) == AssignSlice(Fit(s, n), |s|, |s| + k, v)
  {
    var lhs := Fit(s + Repeat(v, k), n);
    var rhs := AssignSlice(Fit(s, n), |s|, |s| + k, v);
    forall j | 0 <= j < n
      ensures lhs[j] == rhs[j]
    {
      if j < |s| {
        assert (s + Repeat(v, k))[j] == s[j];
      } else if j < |s| + k {
        assert (s + Repeat(v, k))[j] == Repeat(v, k)[j - |s|];
      }
    }
  }

  // ---------------------------------------------------------------------
  // add_adcp_data: id derivation and attribute merge

  /** The number of times `c` occurs in `s`. */
  function Count(s: string, c: char): nat {
    multiset(s)[c]
  }

  /** `split` yields one more piece than there are separators. */
  lemma {:induction false} SplitLength(s: string, c: char)
    ensures |Split(s, c)| == Count(s, c) + 1
  {
    if s != [] {
      SplitLength(s[1..], c);
      assert s == [s[0]] + s[1..];
      assert multiset(s) == multiset{s[0]} + multiset(s[1..]);
    }
  }

  /** The ADCP dataset id `adcp_{parts[1]}_{parts[2]}` built from the parts
      of a glider dataset id split on `_`; an `IndexError` when the id has
      fewer than two underscores. */
  function AdcpId(datasetId: string): (r: Result<string>)
    ensures r.Err? <==> Count(datasetId, '_') < 2
    ensures r.Ok? ==> HasPrefix(r.value, "adcp_")
  {
    var parts := Split(datasetId, '_');
    SplitLength(datasetId, '_');
    if |parts| < 3 then Err(IndexError("list index out of range"))
    else Ok("adcp_" + parts[1] + "_" + parts[2])
  }

  /** For an id made of underscore-separated fields, the ADCP id keeps the
      second and third fields (platform and mission) and drops the first
      (data class) and anything after the third. */
  lemma AdcpIdOfFields(fields: seq<string>)
    requires |fields| >= 3
    requires forall i :: 0 <= i < |fields| ==> '_' !in fields[i]
    ensures AdcpId(Join(fields, '_')) == Ok("adcp_" + fields[1] + "_" + fields[2])
  {
    SplitJoin(fields, '_');
  }

  /** `{i: j for i, j in adcp.attrs.items() if i not in ds.attrs}`: the
      ADCP attributes, in their order, whose name the dataset does not use. */
  function AdcpOnlyAttrs(adcpAttrs: Dict<Value>, dsAttrs: Dict<Value>): (r: Dict<Value>)
    ensures forall p :: p in r <==> p in adcpAttrs && p.0 !in Keys(dsAttrs)
    ensures UniqueKeys(adcpAttrs) ==> UniqueKeys(r)
  {
    if adcpAttrs == [] then []
    else
      var rest := AdcpOnlyAttrs(adcpAttrs[1..], dsAttrs);
      assert adcpAttrs == [adcpAttrs[0]] + adcpAttrs[1..];
      if adcpAttrs[0].0 in Keys(dsAttrs) then rest else [adcpAttrs[0]] + rest
  }

  /** The attribute step of `add_adcp_data`: the dataset's attributes gain
      `adcp_attributes`, the `str()` of the ADCP attributes the dataset does
      not already have; nothing else changes. */
  function WithAdcpAttributes(dsAttrs: Dict<Value>, adcpAttrs: Dict<Value>): (r: Dict<Value>)
    ensures Get(r, "adcp_attributes") == Some(VStr(Repr(VDict(AdcpOnlyAttrs(adcpAttrs, dsAttrs)))))
    ensures forall k :: k != "adcp_attributes" ==> Get(r, k) == Get(dsAttrs, k)
  {
    Set(dsAttrs, "adcp_attributes", VStr(Str(VDict(AdcpOnlyAttrs(adcpAttrs, dsAttrs)))))
  }
}
