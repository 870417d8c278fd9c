/** The ballast statistics of glider missions: choosing the missions by
    glider serial, mission number and data type, then per mission the
    number of upward crossings of a ballast threshold within dives and the
    per-dive top and low ballast values. */
module Ballast {
  import opened Wrappers
  import opened Strings
  import opened Seqs

  // ---------------------------------------------------------------------
  // choosing the datasets

  /** Python truthiness of an optional number: `None` and `0` are false. */
  predicate Truthy(o: Option<int>) {
    o.Some? && o.value != 0
  }

  /** The glider name a serial stands for: `f"SEA{str(serial).zfill(3)}"`. */
  function SerialTag(serial: int): string {
    "SEA" + ZFill(IntToString(serial), 3)
  }

  /** The mission part of a dataset id: `f"M{mission}"`. */
  function MissionTag(mission: int): string {
    "M" + IntToString(mission)
  }

  /** `get_glider_dataset_ids`: the server's ids that name a glider. */
  function GliderDatasetIds(all: seq<string>): (r: seq<string>)
    ensures SubSeq(r, all)
    ensures forall id :: id in r <==> id in all && Contains(id, "SEA")
  {
    Filter(all, id => Contains(id, "SEA"))
  }

  /** An id passing the glider and serial filters of `select_datasets`. */
  predicate SerialMatch(serial: Option<int>, id: string) {
    && Contains(id, "SEA")
    && (Truthy(serial) ==> Contains(id, SerialTag(serial.value)))
  }

  /** An id passing the glider, serial and mission filters. */
  predicate MissionMatch(serial: Option<int>, mission: Option<int>, id: string) {
    && SerialMatch(serial, id)
    && (Truthy(mission) ==> Contains(id, MissionTag(mission.value)))
  }

  /** When a dataset id passes all of `select_datasets`' filters. */
  predicate Selected(serial: Option<int>, mission: Option<int>, dataType: string, id: string) {
    && Contains(id, "SEA")
    && (Truthy(serial) ==> Contains(id, SerialTag(serial.value)))
    && (Truthy(mission) ==> Contains(id, MissionTag(mission.value)))
    && (dataType == "nrt" ==> Contains(id, "nrt"))
    && (dataType == "delayed" ==> Contains(id, "delayed"))
  }

  /** The glider ids, narrowed to the serial's when a serial is given. */
  function BySerial(all: seq<string>, serial: Option<int>): (r: seq<string>)
    ensures r == Filter(all, id => SerialMatch(serial, id))
  {
    var sv := serial.GetOr(0);
    var hasSerial := (id: string) => Contains(id, SerialTag(sv));
    FilterIf(all, id => Contains(id, "SEA"), hasSerial, id => SerialMatch(serial, id), Truthy(serial));
    var gliders := GliderDatasetIds(all);
    if Truthy(serial) then Filter(gliders, hasSerial) else gliders
  }

  /** The serial's ids, narrowed to the mission's when a mission is given. */
  function ByMission(all: seq<string>, serial: Option<int>, mission: Option<int>): (r: seq<string>)
    ensures r == Filter(all, id => MissionMatch(serial, mission, id))
  {
    var mv := mission.GetOr(0);
    var hasMission := (id: string) => Contains(id, MissionTag(mv));
    FilterIf(all, id => SerialMatch(serial, id), hasMission, id => MissionMatch(serial, mission, id), Truthy(mission));
    var bySerial := BySerial(all, serial);
    if Truthy(mission) then Filter(bySerial, hasMission) else bySerial
  }

  /** `select_datasets(glider_serial, mission_num, data_type)` over the
      server's dataset list `all`: the filters applied one after the other
      keep exactly the ids passing all of them, in server order. */
  function SelectDatasets(all: seq<string>, serial: Option<int>, mission: Option<int>, dataType: string): (r: seq<string>)
    ensures r == Filter(all, id => Selected(serial, mission, dataType, id))
  {
    var byMission := ByMission(all, serial, mission);
    var stage := (id: string) => MissionMatch(serial, mission, id);
    var selected := (id: string) => Selected(serial, mission, dataType, id);
    if dataType == "nrt" then
      FilterThen(all, stage, id => Contains(id, "nrt"), selected);
      Filter(byMission, id => Contains(id, "nrt"))
    else if dataType == "delayed" then
      FilterThen(all, stage, id => Contains(id, "delayed"), selected);
      Filter(byMission, id => Contains(id, "delayed"))
    else
      FilterCongruent(all, stage, selected);
      byMission
  }

  /** The serial is zero-padded to three digits. */
  lemma SerialTagPadded()
    ensures SerialTag(57) == "SEA057"
    ensures SerialTag(7) == "SEA007"
  {
    TwoDigitTag();
    OneDigitTag();
  }

  lemma TwoDigitTag()
    ensures SerialTag(57) == "SEA057"
  {
    calc {
      SerialTag(57);
      "SEA" + ZFill(NatToString(57), 3);
      { assert NatToString(57) == NatToString(5) + [DigitChar(7)] == "57"; }
      "SEA" + ZFill("57", 3);
      { assert Zeros(1) == "0"; }
      "SEA" + ("0" + "57");
      "SEA057";
    }
  }

  lemma OneDigitTag()
    ensures SerialTag(7) == "SEA007"
  {
    calc {
      SerialTag(7);
      "SEA" + ZFill(NatToString(7), 3);
      { assert NatToString(7) == [DigitChar(7)] == "7"; }
      "SEA" + ZFill("7", 3);
      { assert Zeros(2) == "0" + Zeros(1) == "00"; }
      "SEA" + ("00" + "7");
      "SEA007";
    }
  }

  /** For a non-negative serial the tag is `SEA` followed by digits, at
      least three of them, spelling the serial. */
  lemma SerialTagSpellsSerial(serial: nat)
    ensures var t := SerialTag(serial);
      && |t| >= 6 && t[..3] == "SEA"
      && (forall i :: 3 <= i < |t| ==> IsDigit(t[i]))
      && ParseNat(t[3..]) == serial
  {
    var z := ZFill(IntToString(serial), 3);
    ZFillKeepsValue(serial, 3);
    var t := SerialTag(serial);
    assert t[3..] == z;
    forall i | 3 <= i < |t|
      ensures IsDigit(t[i])
    {
      assert t[i] == z[i - 3];
    }
  }

  /** The mission is matched as a substring, so mission 7 also selects the
      datasets of mission 75. */
  lemma MissionSevenSelectsSeventyFive()
    ensures Selected(None, Some(7), "nrt", "nrt_SEA057_M75")
  {
    var id := "nrt_SEA057_M75";
    assert MissionTag(7) == "M7" by {
      assert NatToString(7) == [DigitChar(7)] == "7";
    }
    assert id[4..7] == "SEA";
    assert OccursAt(id, "SEA", 4);
    assert id[11..13] == "M7";
    assert OccursAt(id, "M7", 11);
    assert id[0..3] == "nrt";
    assert OccursAt(id, "nrt", 0);
  }

  // ---------------------------------------------------------------------
  // samples and dives

  /** One time step of a mission: dive number, ballast position (ml),
      navigation state and security level. */
  datatype Sample = Sample(dive: int, ballast: int, navState: int, security: int)

  /** The navigation state of a glider going up. */
  const Ascending := 117

  /** The default threshold of `ballast_info`, in ml. */
  const DefaultThreshold := 420

  function Ballasts(ss: seq<Sample>): (r: seq<int>)
    ensures |r| == |ss| && forall i :: 0 <= i < |ss| ==> r[i] == ss[i].ballast
  {
    seq(|ss|, i requires 0 <= i < |ss| => ss[i].ballast)
  }

  /** `ds.sel(time=ds.dive_num == d)`: the samples of one dive, in time
      order. */
  function OfDive(ss: seq<Sample>, d: int): seq<Sample> {
    Filter(ss, (s: Sample) => s.dive == d)
  }

  predicate StrictlyIncreasing(xs: seq<int>) {
    forall i, j :: 0 <= i < j < |xs| ==> xs[i] < xs[j]
  }

  lemma ConsIncreasing(a: int, rest: seq<int>)
    requires StrictlyIncreasing(rest) && forall y :: y in rest ==> a < y
    ensures StrictlyIncreasing([a] + rest)
  {
    var r := [a] + rest;
    forall i, j | 0 <= i < j < |r|
      ensures r[i] < r[j]
    {
      assert r[j] == rest[j - 1] && rest[j - 1] in rest;
      if i > 0 {
        assert r[i] == rest[i - 1];
      }
    }
  }

  function InsertSorted(xs: seq<int>, x: int): (r: seq<int>)
    requires StrictlyIncreasing(xs)
    ensures StrictlyIncreasing(r)
    ensures forall y :: y in r <==> y in xs || y == x
    ensures x in xs ==> r == xs
    ensures (forall i :: 0 <= i < |xs| ==> xs[i] < x) ==> r == xs + [x]
  {
    if xs == [] then [x]
    else if x == xs[0] then xs
    else if x < xs[0] then
      ConsIncreasing(x, xs);
      [x] + xs
    else
      var tail := xs[1..];
      var rest := InsertSorted(tail, x);
      assert xs == [xs[0]] + tail;
      ConsIncreasing(xs[0], rest);
      [xs[0]] + rest
  }

  /** `np.sort(np.array(list(set(ds.dive_num.values))))`: the distinct dive
      numbers in ascending order. */
  function Dives(ss: seq<Sample>): (r: seq<int>)
    ensures StrictlyIncreasing(r)
    ensures forall d :: d in r <==> exists i :: 0 <= i < |ss| && ss[i].dive == d
  {
    if ss == [] then []
    else
      var init := ss[..|ss| - 1];
      var prev := Dives(init);
      var r := InsertSorted(prev, ss[|ss| - 1].dive);
      assert forall i :: 0 <= i < |init| ==> init[i] == ss[i];
      DivesMembers(ss, prev, r);
      r
  }

  lemma DivesMembers(ss: seq<Sample>, prev: seq<int>, r: seq<int>)
    requires ss != []
    requires forall d :: d in prev <==> exists i :: 0 <= i < |ss| - 1 && ss[i].dive == d
    requires forall y :: y in r <==> y in prev || y == ss[|ss| - 1].dive
    ensures forall d :: d in r <==> exists i :: 0 <= i < |ss| && ss[i].dive == d
  {
    forall d | exists i :: 0 <= i < |ss| && ss[i].dive == d
      ensures d in r
    {
      var i :| 0 <= i < |ss| && ss[i].dive == d;
      if i < |ss| - 1 {
        assert d in prev;
      }
    }
  }

  // ---------------------------------------------------------------------
  // threshold crossings

  /** A pair of consecutive ballast values pumping from below the threshold
      to above it; values equal to the threshold cross nothing. */
  predicate UpCross(a: int, b: int, threshold: int) {
    a < threshold && b > threshold
  }

  /** The upward crossings between consecutive values. */
  function Crossings(vs: seq<int>, threshold: int): nat {
    if |vs| < 2 then 0
    else Crossings(vs[..|vs| - 1], threshold) + (if UpCross(vs[|vs| - 2], vs[|vs| - 1], threshold) then 1 else 0)
  }

  /** The pair of values at `k` and `k + 1` crosses upward. */
  predicate CrossesAt(vs: seq<int>, k: int, threshold: int) {
    0 <= k < |vs| - 1 && UpCross(vs[k], vs[k + 1], threshold)
  }

  /** The positions where consecutive values cross upward. */
  function CrossingIndices(vs: seq<int>, threshold: int): set<int> {
    set k | 0 <= k < |vs| && CrossesAt(vs, k, threshold)
  }

  /** The count is the number of crossing positions. */
  lemma {:induction false} CrossingsCount(vs: seq<int>, threshold: int)
    ensures Crossings(vs, threshold) == |CrossingIndices(vs, threshold)|
  {
    if |vs| < 2 {
      assert CrossingIndices(vs, threshold) == {};
    } else {
      var init := vs[..|vs| - 1];
      CrossingsCount(init, threshold);
      var n := |vs| - 2;
      var before := CrossingIndices(init, threshold);
      assert forall k :: 0 <= k < n ==> (CrossesAt(init, k, threshold) <==> CrossesAt(vs, k, threshold));
      if UpCross(vs[n], vs[n + 1], threshold) {
        assert CrossingIndices(vs, threshold) == before + {n};
      } else {
        assert CrossingIndices(vs, threshold) == before;
      }
    }
  }

  /** Falling or flat ballast never crosses upward. */
  lemma {:induction false} NoCrossingWhenNotRising(vs: seq<int>, threshold: int)
    requires forall k :: 0 <= k < |vs| - 1 ==> vs[k + 1] <= vs[k]
    ensures Crossings(vs, threshold) == 0
  {
    if |vs| >= 2 {
      NoCrossingWhenNotRising(vs[..|vs| - 1], threshold);
    }
  }

  /** The mission's count: the crossings within each dive, summed over the
      dives listed in `ds`. */
  function SumDives(ss: seq<Sample>, ds: seq<int>, threshold: int): nat {
    if ds == [] then 0
    else SumDives(ss, ds[..|ds| - 1], threshold) + DiveCrossings(ss, ds[|ds| - 1], threshold)
  }

  /** The crossings between consecutive samples of dive `d`. */
  function DiveCrossings(ss: seq<Sample>, d: int, threshold: int): nat {
    Crossings(Ballasts(OfDive(ss, d)), threshold)
  }

  function MissionCrossings(ss: seq<Sample>, threshold: int): nat {
    SumDives(ss, Dives(ss), threshold)
  }

  /** The crossover loop of `ballast_info` for one mission: the count
      starts at 0, and for each dive in ascending order every consecutive
      pair of the dive's samples is tested. */
  method CountCrossovers(ss: seq<Sample>, threshold: int) returns (crossOver: nat)
    ensures crossOver == MissionCrossings(ss, threshold)
  {
    var dives := Dives(ss);
    crossOver := 0;
    for j := 0 to |dives|
      invariant crossOver == SumDives(ss, dives[..j], threshold)
    {
      var dive := OfDive(ss, dives[j]);
      var c := CountDiveCrossovers(Ballasts(dive), threshold);
      crossOver := crossOver + c;
      assert dives[..j + 1][..j] == dives[..j];
    }
    assert dives[..|dives|] == dives;
  }

  /** The inner loop over one dive's ballast values: `k` runs over the
      positions, stopping at the last one, which has no successor. */
  method CountDiveCrossovers(vals: seq<int>, threshold: int) returns (count: nat)
    ensures count == Crossings(vals, threshold)
  {
    count := 0;
    for k := 0 to |vals|
      invariant count == Crossings(vals[..if k + 1 <= |vals| then k + 1 else |vals|], threshold)
    {
      if k + 1 > |vals| - 1 {
        break;
      } else if vals[k] - threshold < 0 && vals[k + 1] - threshold > 0 {
        count := count + 1;
      }
      assert vals[..k + 2][..k + 1] == vals[..k + 1];
    }
    assert vals[..|vals|] == vals;
  }

  /** Samples ordered by dive number, as a time-ordered mission is. */
  predicate DiveOrdered(ss: seq<Sample>) {
    forall i, j :: 0 <= i < j < |ss| ==> ss[i].dive <= ss[j].dive
  }

  /** The crossings between consecutive samples of the same dive. */
  function SameDiveCrossings(ss: seq<Sample>, threshold: int): nat {
    if |ss| < 2 then 0
    else
      var a, b := ss[|ss| - 2], ss[|ss| - 1];
      SameDiveCrossings(ss[..|ss| - 1], threshold) +
        (if a.dive == b.dive && UpCross(a.ballast, b.ballast, threshold) then 1 else 0)
  }

  /** In a mission whose samples are ordered by dive, the per-dive count is
      the count over consecutive samples that belong to the same dive: pairs
      spanning two dives are never counted, and nothing else is lost. */
  lemma {:induction false} CrossoverScope(ss: seq<Sample>, threshold: int)
    requires DiveOrdered(ss)
    ensures MissionCrossings(ss, threshold) == SameDiveCrossings(ss, threshold)
  {
    if ss != [] {
      var p, x := ss[..|ss| - 1], ss[|ss| - 1];
      assert ss == p + [x];
      DiveOrderedPrefix(p, x);
      CrossoverScope(p, threshold);
      ScopeStep(p, x, threshold);
    }
  }

  lemma DiveOrderedPrefix(p: seq<Sample>, x: Sample)
    requires DiveOrdered(p + [x])
    ensures DiveOrdered(p)
  {
    forall i, j | 0 <= i < j < |p|
      ensures p[i].dive <= p[j].dive
    {
      assert (p + [x])[i] == p[i] && (p + [x])[j] == p[j];
    }
  }

  /** The inductive step of `CrossoverScope`. */
  lemma ScopeStep(p: seq<Sample>, x: Sample, threshold: int)
    requires DiveOrdered(p + [x])
    requires MissionCrossings(p, threshold) == SameDiveCrossings(p, threshold)
    ensures MissionCrossings(p + [x], threshold) == SameDiveCrossings(p + [x], threshold)
  {
    if x.dive in Dives(p) {
      LastDiveContinues(p, x);
      ScopeContinue(p, x, threshold);
    } else {
      EarlierDivesBelow(p, x);
      ScopeNewDive(p, x, threshold);
    }
  }

  /** In dive order, a sample of a dive already seen belongs to the last dive. */
  lemma LastDiveContinues(p: seq<Sample>, x: Sample)
    requires DiveOrdered(p + [x]) && x.dive in Dives(p)
    ensures p != [] && p[|p| - 1].dive == x.dive
  {
    var ss := p + [x];
    var i :| 0 <= i < |p| && p[i].dive == x.dive;
    var n := |p| - 1;
    assert ss[n] == p[n] && ss[|p|] == x;
    DiveOrderedAt(ss, n, |p|);
    if i < n {
      assert ss[i] == p[i];
      DiveOrderedAt(ss, i, n);
    } else {
      assert i == n;
    }
  }

  lemma DiveOrderedAt(ss: seq<Sample>, i: nat, j: nat)
    requires DiveOrdered(ss) && i < j < |ss|
    ensures ss[i].dive <= ss[j].dive
  {
  }

  /** In dive order, a sample of a new dive is numbered above all earlier dives. */
  lemma EarlierDivesBelow(p: seq<Sample>, x: Sample)
    requires DiveOrdered(p + [x]) && x.dive !in Dives(p)
    ensures forall i :: 0 <= i < |Dives(p)| ==> Dives(p)[i] < x.dive
  {
    var ss, ds := p + [x], Dives(p);
    forall i | 0 <= i < |ds|
      ensures ds[i] < x.dive
    {
      assert ds[i] in ds;
      var j :| 0 <= j < |p| && p[j].dive == ds[i];
      assert ss[j] == p[j] && ss[|p|] == x;
      assert ss[j].dive <= ss[|p|].dive;
    }
  }

  /** The inductive step of `CrossoverScope` for a sample continuing the
      last dive. */
  lemma ScopeContinue(p: seq<Sample>, x: Sample, threshold: int)
    requires p != [] && p[|p| - 1].dive == x.dive
    requires MissionCrossings(p, threshold) == SameDiveCrossings(p, threshold)
    ensures MissionCrossings(p + [x], threshold) == SameDiveCrossings(p + [x], threshold)
  {
    var ss, ds, last := p + [x], Dives(p), p[|p| - 1];
    var step := if UpCross(last.ballast, x.ballast, threshold) then 1 else 0;
    ContinueDives(p, x);
    calc {
      MissionCrossings(ss, threshold);
      SumDives(ss, ds, threshold);
      { SumDivesSnoc(p, x, ds, threshold); DiveCrossingsSameDive(p, x, threshold); }
      SumDives(p, ds, threshold) + step;
      SameDiveCrossings(p, threshold) + step;
      { ContinueSameDive(p, x, threshold); }
      SameDiveCrossings(ss, threshold);
    }
  }

  lemma ContinueDives(p: seq<Sample>, x: Sample)
    requires p != [] && p[|p| - 1].dive == x.dive
    ensures x.dive in Dives(p) && Dives(p + [x]) == Dives(p)
  {
    var ss := p + [x];
    assert ss[..|ss| - 1] == p;
    assert p[|p| - 1].dive == x.dive;
  }

  lemma ContinueSameDive(p: seq<Sample>, x: Sample, threshold: int)
    requires p != [] && p[|p| - 1].dive == x.dive
    ensures SameDiveCrossings(p + [x], threshold) ==
      SameDiveCrossings(p, threshold) + (if UpCross(p[|p| - 1].ballast, x.ballast, threshold) then 1 else 0)
  {
    var ss := p + [x];
    assert ss[..|ss| - 1] == p;
    assert ss[|ss| - 2] == p[|p| - 1] && ss[|ss| - 1] == x;
  }

  /** The inductive step of `CrossoverScope` for a sample starting a dive
      numbered above all earlier ones. */
  lemma ScopeNewDive(p: seq<Sample>, x: Sample, threshold: int)
    requires forall i :: 0 <= i < |Dives(p)| ==> Dives(p)[i] < x.dive
    requires MissionCrossings(p, threshold) == SameDiveCrossings(p, threshold)
    ensures MissionCrossings(p + [x], threshold) == SameDiveCrossings(p + [x], threshold)
  {
    var ss, ds := p + [x], Dives(p);
    NewDiveDives(p, x);
    calc {
      MissionCrossings(ss, threshold);
      SumDives(ss, ds + [x.dive], threshold);
      { SumDivesLast(ss, ds, x.dive, threshold); }
      SumDives(ss, ds, threshold) + DiveCrossings(ss, x.dive, threshold);
      { SumDivesSnoc(p, x, ds, threshold); DiveCrossingsNewDive(p, x, threshold); }
      SumDives(p, ds, threshold);
      SameDiveCrossings(p, threshold);
      { NewDiveSameDive(p, x, threshold); }
      SameDiveCrossings(ss, threshold);
    }
  }

  lemma SumDivesLast(ss: seq<Sample>, ds: seq<int>, d: int, threshold: int)
    ensures SumDives(ss, ds + [d], threshold) == SumDives(ss, ds, threshold) + DiveCrossings(ss, d, threshold)
  {
    assert (ds + [d])[..|ds|] == ds;
  }

  lemma NewDiveDives(p: seq<Sample>, x: Sample)
    requires forall i :: 0 <= i < |Dives(p)| ==> Dives(p)[i] < x.dive
    ensures forall i :: 0 <= i < |p| ==> p[i].dive != x.dive
    ensures x.dive !in Dives(p)
    ensures Dives(p + [x]) == Dives(p) + [x.dive]
  {
    var ss, ds := p + [x], Dives(p);
    assert ss[..|ss| - 1] == p;
    assert x.dive !in ds;
    forall i | 0 <= i < |p|
      ensures p[i].dive != x.dive
    {
      assert p[i].dive in ds;
    }
  }

  lemma NewDiveSameDive(p: seq<Sample>, x: Sample, threshold: int)
    requires p != [] ==> p[|p| - 1].dive != x.dive
    ensures SameDiveCrossings(p + [x], threshold) == SameDiveCrossings(p, threshold)
  {
    var ss := p + [x];
    assert ss[..|ss| - 1] == p;
    if |p| >= 1 {
      assert ss[|ss| - 2] == p[|p| - 1];
    }
  }

  /** Extending a sequence adds the crossing of its last pair, if any. */
  lemma CrossingsSnoc(vs: seq<int>, v: int, threshold: int)
    ensures Crossings(vs + [v], threshold) ==
      Crossings(vs, threshold) + (if |vs| >= 1 && UpCross(vs[|vs| - 1], v, threshold) then 1 else 0)
  {
    assert (vs + [v])[..|vs|] == vs;
  }

  lemma BallastsSnoc(ss: seq<Sample>, x: Sample)
    ensures Ballasts(ss + [x]) == Ballasts(ss) + [x.ballast]
  {
  }

  /** A sample of the same dive as the last one adds that pair's crossing. */
  lemma DiveCrossingsSameDive(p: seq<Sample>, x: Sample, threshold: int)
    requires p != [] && p[|p| - 1].dive == x.dive
    ensures DiveCrossings(p + [x], x.dive, threshold) ==
      DiveCrossings(p, x.dive, threshold) + (if UpCross(p[|p| - 1].ballast, x.ballast, threshold) then 1 else 0)
  {
    var q, last := p[..|p| - 1], p[|p| - 1];
    assert p == q + [last];
    var inDive := (s: Sample) => s.dive == x.dive;
    FilterSnoc(q, last, inDive);
    FilterSnoc(p, x, inDive);
    BallastsSnoc(OfDive(q, x.dive), last);
    BallastsSnoc(OfDive(p, x.dive), x);
    CrossingsSnoc(Ballasts(OfDive(p, x.dive)), x.ballast, threshold);
  }

  /** A sample of a dive not seen before has no predecessor in its dive. */
  lemma DiveCrossingsNewDive(p: seq<Sample>, x: Sample, threshold: int)
    requires forall i :: 0 <= i < |p| ==> p[i].dive != x.dive
    ensures DiveCrossings(p + [x], x.dive, threshold) == 0
  {
    var inDive := (s: Sample) => s.dive == x.dive;
    FilterNone(p, inDive);
    FilterSnoc(p, x, inDive);
  }

  /** Adding a sample changes only its own dive's term of the sum. */
  lemma {:induction false} SumDivesSnoc(p: seq<Sample>, x: Sample, ds: seq<int>, threshold: int)
    requires StrictlyIncreasing(ds)
    ensures x.dive !in ds ==> SumDives(p + [x], ds, threshold) == SumDives(p, ds, threshold)
    ensures x.dive in ds ==>
      SumDives(p + [x], ds, threshold) + DiveCrossings(p, x.dive, threshold) ==
      SumDives(p, ds, threshold) + DiveCrossings(p + [x], x.dive, threshold)
  {
    if ds != [] {
      var init, d := ds[..|ds| - 1], ds[|ds| - 1];
      assert ds == init + [d];
      SumDivesSnoc(p, x, init, threshold);
      assert SumDives(p + [x], ds, threshold) == SumDives(p + [x], init, threshold) + DiveCrossings(p + [x], d, threshold);
      assert SumDives(p, ds, threshold) == SumDives(p, init, threshold) + DiveCrossings(p, d, threshold);
      forall k | 0 <= k < |init|
        ensures init[k] != d
      {
        assert init[k] == ds[k];
      }
      if d != x.dive {
        DiveCrossingsOtherDive(p, x, d, threshold);
        assert x.dive in ds <==> x.dive in init;
      } else {
        assert x.dive !in init;
      }
    }
  }

  /** A sample leaves the other dives' crossings alone. */
  lemma DiveCrossingsOtherDive(p: seq<Sample>, x: Sample, d: int, threshold: int)
    requires d != x.dive
    ensures DiveCrossings(p + [x], d, threshold) == DiveCrossings(p, d, threshold)
  {
    FilterSnoc(p, x, (s: Sample) => s.dive == d);
    assert OfDive(p + [x], d) == OfDive(p, d);
  }

  // ---------------------------------------------------------------------
  // per-dive top and low ballast

  function Max(xs: seq<int>): (r: int)
    requires xs != []
    ensures r in xs && forall i :: 0 <= i < |xs| ==> xs[i] <= r
  {
    if |xs| == 1 then xs[0]
    else
      var m := Max(xs[1..]);
      assert forall i :: 1 <= i < |xs| ==> xs[i] == xs[1..][i - 1];
      if xs[0] >= m then xs[0] else m
  }

  function Min(xs: seq<int>): (r: int)
    requires xs != []
    ensures r in xs && forall i :: 0 <= i < |xs| ==> r <= xs[i]
  {
    if |xs| == 1 then xs[0]
    else
      var m := Min(xs[1..]);
      assert forall i :: 1 <= i < |xs| ==> xs[i] == xs[1..][i - 1];
      if xs[0] <= m then xs[0] else m
  }

  /** A dive's entries in the top and low range lists; `None` stands for
      the NaN appended for an excluded value. */
  datatype Range = Range(top: Option<int>, low: Option<int>)

  /** The top/low choice for one (non-empty) dive: a dive with any alarm
      contributes nothing; otherwise top is the highest ballast while
      ascending (missing if the glider never reported ascending) and low
      the lowest ballast of the whole dive. */
  function DiveRange(dive: seq<Sample>): (r: Range)
    requires dive != []
    ensures r.low.None? <==> exists i :: 0 <= i < |dive| && dive[i].security > 0
    ensures r.top.Some? <==> r.low.Some? && exists i :: 0 <= i < |dive| && dive[i].navState == Ascending
    ensures r.top.Some? ==>
      && (exists i :: 0 <= i < |dive| && dive[i].navState == Ascending && dive[i].ballast == r.top.value)
      && (forall i :: 0 <= i < |dive| && dive[i].navState == Ascending ==> dive[i].ballast <= r.top.value)
    ensures r.low.Some? ==>
      && (exists i :: 0 <= i < |dive| && dive[i].ballast == r.low.value)
      && (forall i :: 0 <= i < |dive| ==> r.low.value <= dive[i].ballast)
  {
    var alarms := Filter(dive, (s: Sample) => s.security > 0);
    AlarmsFound(dive, alarms);
    if |alarms| > 0 then Range(None, None)
    else Range(AscendingTop(dive), Some(Lowest(dive)))
  }

  lemma AlarmsFound(dive: seq<Sample>, alarms: seq<Sample>)
    requires alarms == Filter(dive, (s: Sample) => s.security > 0)
    ensures |alarms| > 0 <==> exists i :: 0 <= i < |dive| && dive[i].security > 0
  {
    if |alarms| > 0 {
      assert alarms[0] in dive;
    }
    assert forall i :: 0 <= i < |dive| && dive[i].security > 0 ==> dive[i] in alarms;
  }

  /** The lowest ballast of a dive. */
  function Lowest(dive: seq<Sample>): (r: int)
    requires dive != []
    ensures exists i :: 0 <= i < |dive| && dive[i].ballast == r
    ensures forall i :: 0 <= i < |dive| ==> r <= dive[i].ballast
  {
    var bs := Ballasts(dive);
    var r := Min(bs);
    var j :| 0 <= j < |bs| && bs[j] == r;
    assert dive[j].ballast == r;
    r
  }

  /** The highest ballast while ascending; nothing when the glider never
      reported ascending. */
  function AscendingTop(dive: seq<Sample>): (r: Option<int>)
    ensures r.Some? <==> exists i :: 0 <= i < |dive| && dive[i].navState == Ascending
    ensures r.Some? ==>
      && (exists i :: 0 <= i < |dive| && dive[i].navState == Ascending && dive[i].ballast == r.value)
      && (forall i :: 0 <= i < |dive| && dive[i].navState == Ascending ==> dive[i].ballast <= r.value)
  {
    var ascending := Filter(dive, (s: Sample) => s.navState == Ascending);
    assert forall i :: 0 <= i < |dive| && dive[i].navState == Ascending ==> dive[i] in ascending;
    if |ascending| > 0 then
      var top := Max(Ballasts(ascending));
      TopAttained(dive, ascending, top);
      Some(top)
    else
      None
  }

  lemma TopAttained(dive: seq<Sample>, ascending: seq<Sample>, top: int)
    requires ascending == Filter(dive, (s: Sample) => s.navState == Ascending)
    requires top in Ballasts(ascending) && forall i :: 0 <= i < |ascending| ==> Ballasts(ascending)[i] <= top
    ensures exists i :: 0 <= i < |dive| && dive[i].navState == Ascending && dive[i].ballast == top
    ensures forall i :: 0 <= i < |dive| && dive[i].navState == Ascending ==> dive[i].ballast <= top
  {
    forall i | 0 <= i < |dive| && dive[i].navState == Ascending
      ensures dive[i].ballast <= top
    {
      AscendingBelowTop(dive, ascending, top, i);
    }
    TopWitness(dive, ascending, top);
  }

  lemma AscendingBelowTop(dive: seq<Sample>, ascending: seq<Sample>, top: int, i: nat)
    requires ascending == Filter(dive, (s: Sample) => s.navState == Ascending)
    requires forall j :: 0 <= j < |ascending| ==> ascending[j].ballast <= top
    requires i < |dive| && dive[i].navState == Ascending
    ensures dive[i].ballast <= top
  {
    assert dive[i] in ascending;
  }

  lemma TopWitness(dive: seq<Sample>, ascending: seq<Sample>, top: int)
    requires ascending == Filter(dive, (s: Sample) => s.navState == Ascending)
    requires top in Ballasts(ascending)
    ensures exists i :: 0 <= i < |dive| && dive[i].navState == Ascending && dive[i].ballast == top
  {
    var bs := Ballasts(ascending);
    var j :| 0 <= j < |bs| && bs[j] == top;
    var x := ascending[j];
    assert x in dive && x.navState == Ascending && x.ballast == top;
    var k :| 0 <= k < |dive| && dive[k] == x;
    assert dive[k].navState == Ascending && dive[k].ballast == top;
  }

  // ---------------------------------------------------------------------
  // per-mission summary

  /** The integer columns of one mission's row of the ballast table. */
  datatype Summary = Summary(
    totalDives: int,
    maxBallast: int,
    minBallast: int,
    ranges: seq<Range>,
    crossings: nat,
    threshold: int)

  /** The dive ranges for the dives listed, in that order. */
  function Ranges(ss: seq<Sample>, ds: seq<int>): (r: seq<Range>)
    requires forall i :: 0 <= i < |ds| ==> ds[i] in Dives(ss)
    ensures |r| == |ds|
    ensures forall i :: 0 <= i < |ds| ==> OfDive(ss, ds[i]) != [] && r[i] == DiveRange(OfDive(ss, ds[i]))
  {
    if ds == [] then []
    else
      assert ds[0] in Dives(ss);
      OfDiveNonEmpty(ss, ds[0]);
      var rest := Ranges(ss, ds[1..]);
      var r := [DiveRange(OfDive(ss, ds[0]))] + rest;
      forall i | 0 <= i < |ds|
        ensures OfDive(ss, ds[i]) != [] && r[i] == DiveRange(OfDive(ss, ds[i]))
      {
        if i > 0 {
          assert ds[i] == ds[1..][i - 1] && r[i] == rest[i - 1];
        }
      }
      r
  }

  /** A dive number that occurs selects at least one sample. */
  lemma OfDiveNonEmpty(ss: seq<Sample>, d: int)
    requires exists j :: 0 <= j < |ss| && ss[j].dive == d
    ensures OfDive(ss, d) != []
  {
    var j :| 0 <= j < |ss| && ss[j].dive == d;
    assert ss[j] in OfDive(ss, d);
  }

  /** Sample `i` is an ascending sample of a dive without alarms, so its
      dive's top enters the mission's average. */
  predicate YieldsTop(ss: seq<Sample>, i: int)
    requires 0 <= i < |ss|
  {
    && ss[i].navState == Ascending
    && forall j :: 0 <= j < |ss| && ss[j].dive == ss[i].dive ==> ss[j].security <= 0
  }

  /** Some dive of the mission has a top range. */
  predicate SomeTop(ranges: seq<Range>) {
    exists k :: 0 <= k < |ranges| && ranges[k].top.Some?
  }

  /** One mission's row: total dives is the largest dive number, the
      mission-wide extreme ballast values, the per-dive ranges in ascending
      dive order, the crossover count and the threshold used. A mission
      without samples makes the reductions raise, and so does one where no
      dive yields a top: the average of only NaN tops is NaN, and `int` of
      NaN raises `ValueError`. */
  function MissionSummary(ss: seq<Sample>, threshold: int): (r: Result<Summary>)
    ensures r.Err? <==> forall i :: 0 <= i < |ss| ==> !YieldsTop(ss, i)
    ensures r.Ok? ==>
      && (exists i :: 0 <= i < |ss| && ss[i].dive == r.value.totalDives)
      && (forall i :: 0 <= i < |ss| ==> ss[i].dive <= r.value.totalDives)
    ensures r.Ok? ==>
      && (exists i :: 0 <= i < |ss| && ss[i].ballast == r.value.maxBallast)
      && (exists i :: 0 <= i < |ss| && ss[i].ballast == r.value.minBallast)
      && (forall i :: 0 <= i < |ss| ==> r.value.minBallast <= ss[i].ballast <= r.value.maxBallast)
    ensures r.Ok? ==> |r.value.ranges| == |Dives(ss)| && r.value.threshold == threshold
    ensures r.Ok? ==> forall i :: 0 <= i < |Dives(ss)| ==>
      OfDive(ss, Dives(ss)[i]) != [] && r.value.ranges[i] == DiveRange(OfDive(ss, Dives(ss)[i]))
    ensures r.Ok? ==> r.value.crossings == MissionCrossings(ss, threshold)
  {
    if ss == [] then Err(ValueError("zero-size array to reduction operation"))
    else
      var dives := seq(|ss|, i requires 0 <= i < |ss| => ss[i].dive);
      var total := Max(dives);
      var bs := Ballasts(ss);
      var top, low := Max(bs), Min(bs);
      ExtremesAttained(ss, dives, bs, total, top, low);
      var ds := Dives(ss);
      var ranges := Ranges(ss, ds);
      TopIffYield(ss, ranges);
      if !SomeTop(ranges) then Err(ValueError("cannot convert float NaN to integer"))
      else Ok(Summary(total, top, low, ranges, MissionCrossings(ss, threshold), threshold))
  }

  /** Some dive has a top range exactly when some sample is an ascending
      sample of a dive without alarms. */
  lemma TopIffYield(ss: seq<Sample>, ranges: seq<Range>)
    requires |ranges| == |Dives(ss)|
    requires forall k :: 0 <= k < |Dives(ss)| ==>
      OfDive(ss, Dives(ss)[k]) != [] && ranges[k] == DiveRange(OfDive(ss, Dives(ss)[k]))
    ensures SomeTop(ranges) <==> exists i :: 0 <= i < |ss| && YieldsTop(ss, i)
  {
    if SomeTop(ranges) {
      var k :| 0 <= k < |ranges| && ranges[k].top.Some?;
      TopYields(ss, Dives(ss)[k]);
    }
    if i :| 0 <= i < |ss| && YieldsTop(ss, i) {
      var d := ss[i].dive;
      assert d in Dives(ss);
      var k :| 0 <= k < |Dives(ss)| && Dives(ss)[k] == d;
      YieldHasTop(ss, i);
      assert ranges[k].top.Some?;
    }
  }

  /** A dive whose range has a top holds a sample that yields it. */
  lemma TopYields(ss: seq<Sample>, d: int)
    requires OfDive(ss, d) != [] && DiveRange(OfDive(ss, d)).top.Some?
    ensures exists i :: 0 <= i < |ss| && YieldsTop(ss, i)
  {
    var dive := OfDive(ss, d);
    TopWithoutAlarm(dive);
    var m :| 0 <= m < |dive| && dive[m].navState == Ascending;
    var x := dive[m];
    assert x in dive;
    var i :| 0 <= i < |ss| && ss[i] == x;
    forall j | 0 <= j < |ss| && ss[j].dive == d
      ensures ss[j].security <= 0
    {
      InDive(ss, d, j, dive);
    }
    assert YieldsTop(ss, i);
  }

  /** A dive range with a top comes from an alarm-free dive that ascended. */
  lemma TopWithoutAlarm(dive: seq<Sample>)
    requires dive != [] && DiveRange(dive).top.Some?
    ensures forall m :: 0 <= m < |dive| ==> dive[m].security <= 0
    ensures exists m :: 0 <= m < |dive| && dive[m].navState == Ascending
  {
    assert DiveRange(dive).low.Some?;
  }

  /** A sample of dive `d` is among the dive's samples, so it carries no
      alarm when none of those does. */
  lemma InDive(ss: seq<Sample>, d: int, j: nat, dive: seq<Sample>)
    requires dive == OfDive(ss, d)
    requires forall m :: 0 <= m < |dive| ==> dive[m].security <= 0
    requires j < |ss| && ss[j].dive == d
    ensures ss[j].security <= 0
  {
    assert ss[j] in dive;
  }

  /** The dive of a sample that yields a top has a top range. */
  lemma YieldHasTop(ss: seq<Sample>, i: nat)
    requires i < |ss| && YieldsTop(ss, i)
    ensures OfDive(ss, ss[i].dive) != [] && DiveRange(OfDive(ss, ss[i].dive)).top.Some?
  {
    var dive := OfDive(ss, ss[i].dive);
    assert ss[i] in dive;
    forall m | 0 <= m < |dive|
      ensures dive[m].security <= 0
    {
      assert dive[m] in ss;
    }
  }
  lemma ExtremesAttained(ss: seq<Sample>, dives: seq<int>, bs: seq<int>, total: int, top: int, low: int)
    requires |dives| == |ss| && forall i :: 0 <= i < |ss| ==> dives[i] == ss[i].dive
    requires bs == Ballasts(ss)
    requires total in dives && forall i :: 0 <= i < |dives| ==> dives[i] <= total
    requires top in bs && forall i :: 0 <= i < |bs| ==> bs[i] <= top
    requires low in bs && forall i :: 0 <= i < |bs| ==> low <= bs[i]
    ensures exists i :: 0 <= i < |ss| && ss[i].dive == total
    ensures forall i :: 0 <= i < |ss| ==> ss[i].dive <= total
    ensures exists i :: 0 <= i < |ss| && ss[i].ballast == top
    ensures exists i :: 0 <= i < |ss| && ss[i].ballast == low
    ensures forall i :: 0 <= i < |ss| ==> low <= ss[i].ballast <= top
  {
    var a :| 0 <= a < |dives| && dives[a] == total;
    assert ss[a].dive == total;
    var b :| 0 <= b < |bs| && bs[b] == top;
    assert ss[b].ballast == top;
    var c :| 0 <= c < |bs| && bs[c] == low;
    assert ss[c].ballast == low;
    forall i | 0 <= i < |ss|
      ensures low <= ss[i].ballast <= top
    {
      assert bs[i] == ss[i].ballast;
    }
  }
}
