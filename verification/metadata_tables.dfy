/** The metadata script that builds three tables for the near-real-time
    glider datasets: the dataset ids it covers, one row of flattened dataset
    metadata per dataset, one row of variable attributes per dataset, and
    the short users' table. The metadata fetch and the downloads are inputs
    here; only the key-naming and value rules of the rows are modelled. */
module MetadataTables {
  import opened Wrappers
  import opened Strings
  import opened Dicts
  import opened Values
  import opened Seqs

  // ---------------------------------------------------------------------
  // dataset ids

  /** The catalogue's row for itself. */
  const AllDatasets := "allDatasets"

  /** The two near-real-time missions the tables leave out by name. */
  const SkippedFirst := "nrt_SEA057_M75"
  const SkippedSecond := "nrt_SEA070_M29"

  /** The test `x != name`, as a selection condition. */
  function Unlike(name: string): string -> bool {
    (x: string) => x != name
  }

  /** `df.drop(name)`: every row with that name goes; a name that is not
      there raises `KeyError`. */
  function Drop(ids: seq<string>, name: string): (r: Result<seq<string>>)
    ensures r.Err? <==> name !in ids
    ensures r.Err? ==> r.error == KeyError(name)
    ensures r.Ok? ==> r.value == Filter(ids, Unlike(name))
  {
    if name in ids then Ok(Filter(ids, Unlike(name)))
    else Err(KeyError(name))
  }

  /** `index.str[:3] == "nrt"`. */
  predicate NrtPrefixed(id: string) {
    Take(id, 3) == "nrt"
  }

  /** The ids that end up in the tables. */
  predicate Tabled(id: string) {
    NrtPrefixed(id) && id != SkippedFirst && id != SkippedSecond
  }

  /** The dataset ids the tables cover, in catalogue order: the
      near-real-time ids other than the two skipped missions. Each drop
      raises when its name is missing, the catalogue row first. */
  function TableIds(all: seq<string>): (r: Result<seq<string>>)
    ensures r.Err? <==> AllDatasets !in all || SkippedFirst !in all || SkippedSecond !in all
    ensures AllDatasets !in all ==> r == Err(KeyError(AllDatasets))
    ensures r.Ok? ==> r.value == Filter(all, Tabled)
  {
    var withoutCatalogue :- Drop(all, AllDatasets);
    var nrt := Filter(withoutCatalogue, NrtPrefixed);
    SkippedSurvive(all);
    var a :- Drop(nrt, SkippedFirst);
    var b :- Drop(a, SkippedSecond);
    TableIdsPipeline(all);
    Ok(b)
  }

  /** The two skipped ids pass the first two selections. */
  lemma SkippedSurvive(all: seq<string>)
    ensures var nrt := Filter(Filter(all, Unlike(AllDatasets)), NrtPrefixed);
      && (SkippedFirst in nrt <==> SkippedFirst in all)
      && (SkippedSecond in Filter(nrt, Unlike(SkippedFirst)) <==> SkippedSecond in all)
  {
    assert NrtPrefixed(SkippedFirst) && NrtPrefixed(SkippedSecond);
  }

  /** The four selections in a row are one selection by `Tabled`. */
  lemma TableIdsPipeline(all: seq<string>)
    ensures Filter(Filter(Filter(Filter(all, Unlike(AllDatasets)), NrtPrefixed), Unlike(SkippedFirst)), Unlike(SkippedSecond))
      == Filter(all, Tabled)
  {
    var q1 := (x: string) => x != AllDatasets && NrtPrefixed(x);
    var q2 := (x: string) => q1(x) && x != SkippedFirst;
    var q3 := (x: string) => q2(x) && x != SkippedSecond;
    FilterThen(all, Unlike(AllDatasets), NrtPrefixed, q1);
    FilterThen(all, q1, Unlike(SkippedFirst), q2);
    FilterThen(all, q2, Unlike(SkippedSecond), q3);
    assert !NrtPrefixed(AllDatasets) by {
      assert Take(AllDatasets, 3)[0] == 'a';
    }
    FilterCongruent(all, q3, Tabled);
  }

  /** The tables cover exactly the catalogue's ids that start with `nrt`,
      other than the two skipped missions, in catalogue order. */
  lemma TableIdsMembers(all: seq<string>, id: string)
    requires AllDatasets in all && SkippedFirst in all && SkippedSecond in all
    ensures TableIds(all).Ok?
    ensures SubSeq(TableIds(all).value, all)
    ensures id in TableIds(all).value <==>
      id in all && HasPrefix(id, "nrt") && id != SkippedFirst && id != SkippedSecond
  {
    TakeEqualsIsPrefix(id, "nrt");
  }

  // ---------------------------------------------------------------------
  // the flattened metadata row

  /** The cell a top-level entry that is not a dict is stored as: a string
      loses its newlines, a list becomes its `str()`, anything else is kept. */
  function Cell(v: Value): (r: Value)
    ensures r.VStr? ==> '\n' !in r.s
    ensures v.VStr? ==> r.VStr? && forall c :: c != '\n' ==> multiset(r.s)[c] == multiset(v.s)[c]
    ensures v.VStr? ==> r == VStr(Filter(v.s, x => x != '\n'))
    ensures v.VList? ==> r == VStr(Repr(v))
    ensures v.VNone? || v.VNum? ==> r == v
  {
    match v
    case VStr(s) =>
      RemoveCharIsFilter(s, '\n');
      VStr(RemoveChar(s, '\n'))
    case VList(_) => VStr(Str(v))
    case _ => v
  }

  /** The columns one entry `k -> v` of the dict under `key` writes: the
      entries of a nested dict under `k_c` (the outer key is not part of the
      name), any other value under `key_k`. */
  function NestedAssignments(key: string, k: string, v: Value): Dict<Value> {
    if v.VDict? then
      seq(|v.entries|, i requires 0 <= i < |v.entries| => (k + "_" + v.entries[i].0, v.entries[i].1))
    else [(key + "_" + k, v)]
  }

  /** The columns a dict-valued entry under `key` writes, in order. */
  function DictAssignments(key: string, es: Dict<Value>): Dict<Value> {
    if es == [] then []
    else DictAssignments(key, es[..|es| - 1]) + NestedAssignments(key, es[|es| - 1].0, es[|es| - 1].1)
  }

  /** The columns one metadata entry writes; an empty dict writes none. */
  function EntryAssignments(key: string, val: Value): Dict<Value> {
    match val
    case VDict(es) => if es == [] then [] else DictAssignments(key, es)
    case _ => [(key, Cell(val))]
  }

  /** Every `dictrow[...] = ...` the loop over a dataset's metadata
      executes, in execution order. */
  function Assignments(meta: Dict<Value>): Dict<Value> {
    if meta == [] then []
    else Assignments(meta[..|meta| - 1]) + EntryAssignments(meta[|meta| - 1].0, meta[|meta| - 1].1)
  }

  /** `dictrow` for one dataset: the columns are those some assignment
      writes, in order of first write, and each holds the value written
      last. */
  function MetaRow(meta: Dict<Value>): (r: Dict<Value>)
    ensures UniqueKeys(r)
    ensures forall col :: col in Keys(r) <==> col in Keys(Assignments(meta))
    ensures forall col :: col in Keys(Assignments(meta)) ==> Get(r, col) == Some(LastValue(Assignments(meta), col))
  {
    var ps := Assignments(meta);
    forall col
      ensures col in Keys(SetAll([], ps)) <==> col in Keys(ps)
      ensures col in Keys(ps) ==> Get(SetAll([], ps), col) == Some(LastValue(ps, col))
    {
      SetAllKeys([], ps, col);
      GetSetAll([], ps, col);
    }
    SetAll([], ps)
  }

  /** A nested dict's entry `c -> u` under `k` is written to column `k_c`. */
  lemma {:induction false} NestedColumn(key: string, es: Dict<Value>, j: nat, m: nat)
    requires j < |es| && es[j].1.VDict? && m < |es[j].1.entries|
    ensures (es[j].0 + "_" + es[j].1.entries[m].0, es[j].1.entries[m].1) in DictAssignments(key, es)
  {
    if j < |es| - 1 {
      NestedColumn(key, es[..|es| - 1], j, m);
    } else {
      var w := NestedAssignments(key, es[j].0, es[j].1);
      assert w[m] == (es[j].0 + "_" + es[j].1.entries[m].0, es[j].1.entries[m].1);
      assert DictAssignments(key, es) == DictAssignments(key, es[..|es| - 1]) + w;
    }
  }

  /** A plain entry `k -> v` of the dict under `key` is written to column `key_k`. */
  lemma {:induction false} PlainColumn(key: string, es: Dict<Value>, j: nat)
    requires j < |es| && !es[j].1.VDict?
    ensures (key + "_" + es[j].0, es[j].1) in DictAssignments(key, es)
  {
    if j < |es| - 1 {
      PlainColumn(key, es[..|es| - 1], j);
    } else {
      assert DictAssignments(key, es) == DictAssignments(key, es[..|es| - 1]) + [(key + "_" + es[j].0, es[j].1)];
    }
  }

  /** Where an assignment from the dict under `key` comes from. */
  predicate WrittenBy(key: string, e: (string, Value), a: (string, Value)) {
    if e.1.VDict? then exists m :: 0 <= m < |e.1.entries| && a == (e.0 + "_" + e.1.entries[m].0, e.1.entries[m].1)
    else a == (key + "_" + e.0, e.1)
  }

  /** Conversely, every column the dict under `key` writes is one of the two
      kinds above. */
  lemma {:induction false} ColumnOrigin(key: string, es: Dict<Value>, i: nat)
    requires i < |DictAssignments(key, es)|
    ensures exists j :: 0 <= j < |es| && WrittenBy(key, es[j], DictAssignments(key, es)[i])
  {
    var init := es[..|es| - 1];
    var e := es[|es| - 1];
    var w := NestedAssignments(key, e.0, e.1);
    assert DictAssignments(key, es) == DictAssignments(key, init) + w;
    if i < |DictAssignments(key, init)| {
      ColumnOrigin(key, init, i);
      var j :| 0 <= j < |init| && WrittenBy(key, init[j], DictAssignments(key, init)[i]);
      assert es[j] == init[j];
    } else {
      var m := i - |DictAssignments(key, init)|;
      assert DictAssignments(key, es)[i] == w[m];
      assert WrittenBy(key, es[|es| - 1], w[m]);
    }
  }

  /** Removing the metadata entries whose value is an empty dict changes
      nothing: they contribute no columns. */
  lemma EmptyDictsIgnored(meta: Dict<Value>)
    ensures MetaRow(Filter(meta, NotEmptyDict)) == MetaRow(meta)
  {
    AssignmentsSkipEmpty(meta);
  }

  /** `val != {}` for a metadata entry. */
  predicate NotEmptyDict(e: (string, Value)) {
    e.1 != VDict([])
  }

  lemma {:induction false} AssignmentsSkipEmpty(meta: Dict<Value>)
    ensures Assignments(Filter(meta, NotEmptyDict)) == Assignments(meta)
  {
    if meta != [] {
      var init, e := meta[..|meta| - 1], meta[|meta| - 1];
      assert init + [e] == meta;
      AssignmentsSkipEmpty(init);
      FilterSnoc(init, e, NotEmptyDict);
      SkipEmptyStep(Filter(init, NotEmptyDict), init, e);
    }
  }

  lemma SkipEmptyStep(f: Dict<Value>, init: Dict<Value>, e: (string, Value))
    requires Assignments(f) == Assignments(init)
    ensures Assignments(f + (if NotEmptyDict(e) then [e] else [])) == Assignments(init + [e])
  {
    assert (init + [e])[..|init|] == init;
    if NotEmptyDict(e) {
      assert (f + [e])[..|f|] == f;
    } else {
      assert f + [] == f;
    }
  }

  /** A metadata dict without dict values becomes a row with the same
      columns in the same order, each holding its value's cell. */
  lemma FlatMetaRow(meta: Dict<Value>)
    requires UniqueKeys(meta)
    requires forall i :: 0 <= i < |meta| ==> !meta[i].1.VDict?
    ensures MetaRow(meta) == Cells(meta)
  {
    var cells := Cells(meta);
    CellsUnique(meta);
    calc {
      MetaRow(meta);
      SetAll([], Assignments(meta));
      { FlatAssignments(meta); }
      SetAll([], cells);
      { assert [] + cells == cells; SetAllFresh([], cells); }
      [] + cells;
      cells;
    }
  }

  lemma CellsUnique(meta: Dict<Value>)
    requires UniqueKeys(meta)
    ensures UniqueKeys(Cells(meta))
  {
    var cells := Cells(meta);
    forall i, j | 0 <= i < j < |cells|
      ensures cells[i].0 != cells[j].0
    {
      assert Keys(cells)[i] == Keys(meta)[i] && Keys(cells)[j] == Keys(meta)[j];
    }
  }

  /** Each entry's key with its value's cell, in order. */
  function Cells(meta: Dict<Value>): (r: Dict<Value>)
    ensures |r| == |meta| && forall i :: 0 <= i < |meta| ==> r[i] == (meta[i].0, Cell(meta[i].1))
    ensures Keys(r) == Keys(meta)
  {
    seq(|meta|, i requires 0 <= i < |meta| => (meta[i].0, Cell(meta[i].1)))
  }

  lemma {:induction false} FlatAssignments(meta: Dict<Value>)
    requires forall i :: 0 <= i < |meta| ==> !meta[i].1.VDict?
    ensures Assignments(meta) == Cells(meta)
  {
    if meta != [] {
      var init, e := meta[..|meta| - 1], meta[|meta| - 1];
      assert meta == init + [e];
      assert forall i :: 0 <= i < |init| ==> init[i] == meta[i];
      FlatAssignments(init);
      CellsSnoc(init, e);
      assert EntryAssignments(e.0, e.1) == [(e.0, Cell(e.1))];
    }
  }

  lemma CellsSnoc(init: Dict<Value>, e: (string, Value))
    ensures Cells(init + [e]) == Cells(init) + [(e.0, Cell(e.1))]
  {
    var a, b := Cells(init + [e]), Cells(init) + [(e.0, Cell(e.1))];
    forall i | 0 <= i < |a|
      ensures a[i] == b[i]
    {
      if i < |init| {
        assert (init + [e])[i] == init[i];
      }
    }
  }

  /** In a metadata dict without dict values, no string cell keeps a newline. */
  lemma FlatRowSingleLine(meta: Dict<Value>, col: string)
    requires UniqueKeys(meta)
    requires forall i :: 0 <= i < |meta| ==> !meta[i].1.VDict?
    ensures Get(MetaRow(meta), col).Some? && Get(MetaRow(meta), col).value.VStr? ==>
      '\n' !in Get(MetaRow(meta), col).value.s
  {
    FlatMetaRow(meta);
  }

  /** The naming rule on an example: `{'a': {'b': {'c': 1}, 'd': 2}}` gives
      the columns `b_c` (no `a`) and `a_d`. */
  lemma OuterKeyDropped()
    ensures MetaRow([("a", VDict([("b", VDict([("c", VNum(1))])), ("d", VNum(2))]))])
      == [("b_c", VNum(1)), ("a_d", VNum(2))]
  {
    var inner: Dict<Value> := [("b", VDict([("c", VNum(1))])), ("d", VNum(2))];
    var meta := [("a", VDict(inner))];
    var cols: Dict<Value> := [("b_c", VNum(1)), ("a_d", VNum(2))];
    calc {
      MetaRow(meta);
      SetAll([], Assignments(meta));
      { ExampleAssignments(inner, meta); }
      SetAll([], cols);
      { ExampleFresh(cols); }
      cols;
    }
  }

  lemma ExampleFresh(cols: Dict<Value>)
    requires cols == [("b_c", VNum(1)), ("a_d", VNum(2))]
    ensures SetAll([], cols) == cols
  {
    var first: Dict<Value> := [("b_c", VNum(1))];
    calc {
      SetAll([], cols);
      { assert cols[..1] == first; }
      Set(SetAll([], first), "a_d", VNum(2));
      { assert first[..0] == []; }
      Set(Set([], "b_c", VNum(1)), "a_d", VNum(2));
      { assert Keys(first) == ["b_c"]; }
      Set(first, "a_d", VNum(2));
      { assert "a_d" != "b_c" by { assert "a_d"[0] != "b_c"[0]; } }
      first + [("a_d", VNum(2))];
      cols;
    }
  }

  lemma ExampleAssignments(inner: Dict<Value>, meta: Dict<Value>)
    requires inner == [("b", VDict([("c", VNum(1))])), ("d", VNum(2))]
    requires meta == [("a", VDict(inner))]
    ensures Assignments(meta) == [("b_c", VNum(1)), ("a_d", VNum(2))]
  {
    var w := NestedAssignments("a", "b", VDict([("c", VNum(1))]));
    assert "b" + "_" + "c" == "b_c" && "a" + "_" + "d" == "a_d";
    assert |w| == 1 && w[0] == ("b_c", VNum(1));
    assert w == [("b_c", VNum(1))];
    assert NestedAssignments("a", "d", VNum(2)) == [("a_d", VNum(2))];
    assert inner[..1] == [("b", VDict([("c", VNum(1))]))];
    assert DictAssignments("a", inner[..1]) == [("b_c", VNum(1))] by {
      assert inner[..1][..0] == [];
    }
    assert meta[..0] == [];
  }

  // ---------------------------------------------------------------------
  // the variable-attribute row

  /** `np.array` is a function, and a function object is truthy, so the
      guard `type(val) is list or np.array` holds for every value. */
  const ArrayFunctionIsTruthy := true

  predicate ListOrArrayGuard(val: Value) {
    val.VList? || ArrayFunctionIsTruthy
  }

  /** The column one attribute `key -> val` of variable `name` writes. Since
      the first guard always holds, it is always `name_key` holding
      `str(val)`; the newline-stripping branch is never taken. */
  function AttrAssignment(name: string, key: string, val: Value): (r: (string, Value))
    ensures r == (name + "_" + key, VStr(Str(val)))
  {
    if ListOrArrayGuard(val) then (name + "_" + key, VStr(Str(val)))
    else if '\n' in Str(val) then (key, VStr(RemoveChar(Str(val), '\n')))
    else (name + "_" + key, val)
  }

  /** The columns one variable's attributes write, in attribute order. */
  function VarAssignments(name: string, attrs: Dict<Value>): (r: Dict<Value>)
    ensures |r| == |attrs|
    ensures forall i :: 0 <= i < |attrs| ==> r[i] == AttrAssignment(name, attrs[i].0, attrs[i].1)
  {
    seq(|attrs|, i requires 0 <= i < |attrs| => AttrAssignment(name, attrs[i].0, attrs[i].1))
  }

  /** The columns all data variables write, variable after variable. */
  function AttrsAssignments(vars: seq<(string, Dict<Value>)>): Dict<Value> {
    if vars == [] then []
    else AttrsAssignments(vars[..|vars| - 1]) + VarAssignments(vars[|vars| - 1].0, vars[|vars| - 1].1)
  }

  /** `d_row` for one dataset, given its data variables with their
      attribute dicts. */
  function VarAttrsRow(vars: seq<(string, Dict<Value>)>): (r: Dict<Value>)
    ensures UniqueKeys(r)
    ensures forall col :: col in Keys(r) <==> col in Keys(AttrsAssignments(vars))
    ensures forall col :: col in Keys(AttrsAssignments(vars)) ==> Get(r, col) == Some(LastValue(AttrsAssignments(vars), col))
  {
    var ps := AttrsAssignments(vars);
    forall col
      ensures col in Keys(SetAll([], ps)) <==> col in Keys(ps)
      ensures col in Keys(ps) ==> Get(SetAll([], ps), col) == Some(LastValue(ps, col))
    {
      SetAllKeys([], ps, col);
      GetSetAll([], ps, col);
    }
    SetAll([], ps)
  }

  /** Attribute `key` of variable `name` is written to column `name_key`. */
  lemma {:induction false} AttrColumn(vars: seq<(string, Dict<Value>)>, a: nat, b: nat)
    requires a < |vars| && b < |vars[a].1|
    ensures vars[a].0 + "_" + vars[a].1[b].0 in Keys(VarAttrsRow(vars))
  {
    AttrAssigned(vars, a, b);
    var p := AttrAssignment(vars[a].0, vars[a].1[b].0, vars[a].1[b].1);
    var i :| 0 <= i < |AttrsAssignments(vars)| && AttrsAssignments(vars)[i] == p;
    assert Keys(AttrsAssignments(vars))[i] == p.0;
  }

  lemma {:induction false} AttrAssigned(vars: seq<(string, Dict<Value>)>, a: nat, b: nat)
    requires a < |vars| && b < |vars[a].1|
    ensures AttrAssignment(vars[a].0, vars[a].1[b].0, vars[a].1[b].1) in AttrsAssignments(vars)
  {
    var init := vars[..|vars| - 1];
    var w := VarAssignments(vars[|vars| - 1].0, vars[|vars| - 1].1);
    assert AttrsAssignments(vars) == AttrsAssignments(init) + w;
    if a < |vars| - 1 {
      AttrAssigned(init, a, b);
    } else {
      assert w[b] == AttrAssignment(vars[a].0, vars[a].1[b].0, vars[a].1[b].1);
    }
  }

  /** Every cell of the row is the `str()` of some variable's attribute,
      stored under `name_key`: no other column name and no unconverted value
      can occur. */
  lemma {:induction false} AttrCellOrigin(vars: seq<(string, Dict<Value>)>, i: nat)
    requires i < |AttrsAssignments(vars)|
    ensures exists a, b :: (0 <= a < |vars| && 0 <= b < |vars[a].1|
      && AttrsAssignments(vars)[i] == (vars[a].0 + "_" + vars[a].1[b].0, VStr(Str(vars[a].1[b].1))))
  {
    var init := vars[..|vars| - 1];
    var w := VarAssignments(vars[|vars| - 1].0, vars[|vars| - 1].1);
    assert AttrsAssignments(vars) == AttrsAssignments(init) + w;
    if i < |AttrsAssignments(init)| {
      AttrCellOrigin(init, i);
      var a, b :| 0 <= a < |init| && 0 <= b < |init[a].1| &&
        AttrsAssignments(init)[i] == (init[a].0 + "_" + init[a].1[b].0, VStr(Str(init[a].1[b].1)));
      assert init[a] == vars[a];
    } else {
      var b := i - |AttrsAssignments(init)|;
      assert AttrsAssignments(vars)[i] == w[b];
      var a := |vars| - 1;
      assert AttrsAssignments(vars)[i] == (vars[a].0 + "_" + vars[a].1[b].0, VStr(Str(vars[a].1[b].1)));
    }
  }

  /** A string attribute with a newline keeps it, under the variable-prefixed
      column. */
  lemma NewlineKept()
    ensures VarAttrsRow([("temp", [("comment", VStr("a\nb"))])]) == [("temp_comment", VStr("a\nb"))]
  {
    var vars: seq<(string, Dict<Value>)> := [("temp", [("comment", VStr("a\nb"))])];
    assert vars[..0] == [];
    assert "temp" + "_" + "comment" == "temp_comment";
    var w := VarAssignments("temp", [("comment", VStr("a\nb"))]);
    assert w[0] == ("temp_comment", VStr("a\nb"));
    assert w == [("temp_comment", VStr("a\nb"))];
    assert AttrsAssignments(vars) == [] + w;
    SetAllFresh([], [("temp_comment", VStr("a\nb"))]);
    assert [] + [("temp_comment", VStr("a\nb"))] == [("temp_comment", VStr("a\nb"))];
  }

  // ---------------------------------------------------------------------
  // the users' table

  /** The navigation and engineering variables left out of
      `science_variables`. */
  const NavVariables: set<string> := {
    "profile_index", "rowSize", "latitude", "longitude", "time", "depth",
    "angular_cmd", "angular_pos", "ballast_cmd", "ballast_pos", "desired_heading",
    "dive_num", "heading", "internal_pressure", "internal_temperature", "linear_cmd",
    "linear_pos", "nav_state", "pitch", "profile_direction", "profile_num",
    "roll", "security_level", "vertical_distance_to_seafloor", "voltage", "declination"}

  /** Lists and dicts cannot be looked up in a set. */
  predicate Hashable(v: Value) {
    !v.VList? && !v.VDict?
  }

  /** `v not in nav_var` for a hashable value. */
  predicate NotNav(v: Value) {
    !(v.VStr? && v.s in NavVariables)
  }

  /** `[i for i in variables if i not in nav_var]`; an unhashable item
      raises `TypeError`. */
  function ScienceVariables(variables: seq<Value>): (r: Result<seq<Value>>)
    ensures r.Err? <==> exists i :: 0 <= i < |variables| && !Hashable(variables[i])
    ensures r.Ok? ==> SubSeq(r.value, variables)
    ensures r.Ok? ==> forall v :: v in r.value <==> v in variables && NotNav(v)
    ensures r.Ok? ==> forall v :: multiset(r.value)[v] == if NotNav(v) then multiset(variables)[v] else 0
  {
    if exists i :: 0 <= i < |variables| && !Hashable(variables[i]) then
      Err(TypeError("unhashable type"))
    else
      forall v
        ensures multiset(Filter(variables, NotNav))[v] == if NotNav(v) then multiset(variables)[v] else 0
      {
        FilterMultiset(variables, NotNav, v);
      }
      Ok(Filter(variables, NotNav))
  }

  /** Filtering a second time removes nothing more. */
  lemma ScienceVariablesIdempotent(variables: seq<Value>)
    requires ScienceVariables(variables).Ok?
    ensures ScienceVariables(ScienceVariables(variables).value) == ScienceVariables(variables)
  {
    var once := Filter(variables, NotNav);
    assert forall i :: 0 <= i < |once| ==> once[i] in variables;
    FilterAll(once, NotNav);
  }

  /** What iterating a value yields: a list its items, a string its
      characters, a dict its keys; anything else raises `TypeError`. */
  function Elements(v: Value): (r: Result<seq<Value>>)
    ensures r.Err? <==> v.VNone? || v.VNum?
    ensures v.VList? ==> r == Ok(v.items)
    ensures v.VStr? ==> r.Ok? && |r.value| == |v.s| && forall i :: 0 <= i < |v.s| ==> r.value[i] == VStr([v.s[i]])
    ensures v.VDict? ==> r.Ok? && |r.value| == |v.entries| && forall i :: 0 <= i < |v.entries| ==> r.value[i] == VStr(v.entries[i].0)
  {
    match v
    case VList(items) => Ok(items)
    case VStr(s) => Ok(seq(|s|, i requires 0 <= i < |s| => VStr([s[i]])))
    case VDict(es) => Ok(seq(|es|, i requires 0 <= i < |es| => VStr(es[i].0)))
    case _ => Err(TypeError("object is not iterable"))
  }

  /** `v[:10]`: the first ten characters of a string or items of a list;
      other values raise `TypeError`. */
  function Head10(v: Value): (r: Result<Value>)
    ensures r.Err? <==> !v.VStr? && !v.VList?
    ensures v.VStr? ==> r.Ok? && r.value.VStr? && r.value.s <= v.s && |r.value.s| == if |v.s| < 10 then |v.s| else 10
    ensures v.VList? ==> r.Ok? && r.value.VList? && r.value.items <= v.items && |r.value.items| == if |v.items| < 10 then |v.items| else 10
  {
    match v
    case VStr(s) => Ok(VStr(Take(s, 10)))
    case VList(items) => Ok(VList(Take(items, 10)))
    case _ => Err(TypeError("object is not subscriptable"))
  }

  /** `d[k]`. */
  function Field(d: Dict<Value>, k: string): (r: Result<Value>)
    ensures r.Err? <==> k !in Keys(d)
    ensures r.Err? ==> r.error == KeyError(k)
    ensures r.Ok? ==> Get(d, k) == Some(r.value)
  {
    match Get(d, k)
    case Some(v) => Ok(v)
    case None => Err(KeyError(k))
  }

  /** The keys every metadata dict must carry for its users' table row. */
  predicate HasRequiredKeys(d: Dict<Value>) {
    var ks := Keys(d);
    && "glider_serial" in ks && "deployment_id" in ks
    && "deployment_start" in ks && "deployment_end" in ks
    && "basin" in ks && "variables" in ks
    && "ctd" in ks && "oxygen" in ks && "optics" in ks
  }

  /** One row of the users' table. The `ad2cp` and `nitrate` columns are
      never written (their values go to `irradiance`), so they stay missing. */
  datatype UserRow = UserRow(
    gliderSerial: string,
    deploymentId: Value,
    basin: Value,
    deploymentStart: Value,
    deploymentEnd: Value,
    availableVariables: Value,
    scienceVariables: seq<Value>,
    ctd: Value,
    oxygen: Value,
    optics: Value,
    ad2cp: Option<Value>,
    irradiance: Option<Value>,
    nitrate: Option<Value>)

  /** The `irradiance` cell: each of `irradiance`, `ad2cp`, `nitrate` that is
      present overwrites it in turn. */
  function IrradianceCell(d: Dict<Value>): (r: Option<Value>)
    ensures "nitrate" in Keys(d) ==> r == Get(d, "nitrate")
    ensures "nitrate" !in Keys(d) && "ad2cp" in Keys(d) ==> r == Get(d, "ad2cp")
    ensures "nitrate" !in Keys(d) && "ad2cp" !in Keys(d) ==> r == Get(d, "irradiance")
  {
    var c0 := if "irradiance" in Keys(d) then Get(d, "irradiance") else None;
    var c1 := if "ad2cp" in Keys(d) then Get(d, "ad2cp") else c0;
    if "nitrate" in Keys(d) then Get(d, "nitrate") else c1
  }

  /** `f'SEA0{serial}'`. */
  function SerialCell(serial: Value): (r: string)
    ensures HasPrefix(r, "SEA0") && r[4..] == Str(serial)
  {
    "SEA0" + Str(serial)
  }

  /** Values `[:10]` can slice. */
  predicate Sliceable(v: Value) {
    v.VStr? || v.VList?
  }

  /** A `variables` entry the science column can be built from: iterable,
      and, for a list, with hashable items only (the characters of a string
      and the keys of a dict always are). */
  predicate UsableVariables(v: Value) {
    && !v.VNone? && !v.VNum?
    && (v.VList? ==> forall i :: 0 <= i < |v.items| ==> Hashable(v.items[i]))
  }

  /** The cells read first: the serial, the deployment id and the two
      dates cut to ten characters. */
  datatype RowStart = RowStart(serial: Value, id: Value, start: Value, end: Value)

  /** The first four reads of a row, in the source's order. */
  function RowHead(d: Dict<Value>): (r: Result<RowStart>)
    ensures r.Err? <==>
      || !("glider_serial" in Keys(d) && "deployment_id" in Keys(d)
           && "deployment_start" in Keys(d) && "deployment_end" in Keys(d))
      || !Sliceable(Get(d, "deployment_start").value)
      || !Sliceable(Get(d, "deployment_end").value)
    ensures r.Ok? ==>
      && Some(r.value.serial) == Get(d, "glider_serial")
      && Some(r.value.id) == Get(d, "deployment_id")
      && Head10(Get(d, "deployment_start").value) == Ok(r.value.start)
      && Head10(Get(d, "deployment_end").value) == Ok(r.value.end)
  {
    var serial :- Field(d, "glider_serial");
    var id :- Field(d, "deployment_id");
    var startFull :- Field(d, "deployment_start");
    var start :- Head10(startFull);
    var endFull :- Field(d, "deployment_end");
    var end :- Head10(endFull);
    Ok(RowStart(serial, id, start, end))
  }

  /** The cells read after the dates, with the science column. */
  datatype RowRest = RowRest(basin: Value, variables: Value, ctd: Value, oxygen: Value, optics: Value,
                             science: seq<Value>)

  /** The remaining reads of a row, in the source's order, and the
      filtering of the variable list. */
  function RowTail(d: Dict<Value>): (r: Result<RowRest>)
    ensures r.Err? <==>
      || !("basin" in Keys(d) && "variables" in Keys(d) && "ctd" in Keys(d)
           && "oxygen" in Keys(d) && "optics" in Keys(d))
      || !UsableVariables(Get(d, "variables").value)
    ensures r.Ok? ==>
      && Some(r.value.basin) == Get(d, "basin")
      && Some(r.value.variables) == Get(d, "variables")
      && Some(r.value.ctd) == Get(d, "ctd")
      && Some(r.value.oxygen) == Get(d, "oxygen")
      && Some(r.value.optics) == Get(d, "optics")
      && Elements(r.value.variables).Ok?
      && ScienceVariables(Elements(r.value.variables).value) == Ok(r.value.science)
  {
    var basin :- Field(d, "basin");
    var variables :- Field(d, "variables");
    var ctd :- Field(d, "ctd");
    var oxygen :- Field(d, "oxygen");
    var optics :- Field(d, "optics");
    var items :- Elements(variables);
    UsableItems(variables, items);
    var science :- ScienceVariables(items);
    Ok(RowRest(basin, variables, ctd, oxygen, optics, science))
  }

  /** An iterable `variables` entry yields only hashable items exactly when
      it is usable: the characters of a string and the keys of a dict are
      strings. */
  lemma UsableItems(v: Value, items: seq<Value>)
    requires Elements(v) == Ok(items)
    ensures UsableVariables(v) <==> forall i :: 0 <= i < |items| ==> Hashable(items[i])
  {
  }

  /** The users' table row built from one dataset's metadata dict, raising
      at the first missing key, unsliceable date or unusable variable list. */
  function UserRowOf(d: Dict<Value>): (r: Result<UserRow>)
    ensures r.Err? <==>
      || !HasRequiredKeys(d)
      || !Sliceable(Get(d, "deployment_start").value)
      || !Sliceable(Get(d, "deployment_end").value)
      || !UsableVariables(Get(d, "variables").value)
    ensures r.Ok? ==> HasRequiredKeys(d)
    ensures r.Ok? ==>
      && Get(d, "glider_serial").Some?
      && r.value.gliderSerial == SerialCell(Get(d, "glider_serial").value)
    ensures r.Ok? ==>
      && Get(d, "deployment_start").Some? && Get(d, "deployment_end").Some?
      && r.value.deploymentStart.VStr? == Get(d, "deployment_start").value.VStr?
      && (r.value.deploymentStart.VStr? ==>
          r.value.deploymentStart.s <= Get(d, "deployment_start").value.s && |r.value.deploymentStart.s| <= 10)
      && r.value.deploymentEnd.VStr? == Get(d, "deployment_end").value.VStr?
      && (r.value.deploymentEnd.VStr? ==>
          r.value.deploymentEnd.s <= Get(d, "deployment_end").value.s && |r.value.deploymentEnd.s| <= 10)
    ensures r.Ok? ==>
      && Some(r.value.deploymentId) == Get(d, "deployment_id")
      && Some(r.value.availableVariables) == Get(d, "variables")
      && forall v :: v in r.value.scienceVariables ==> NotNav(v)
    ensures r.Ok? ==>
      && Head10(Get(d, "deployment_start").value) == Ok(r.value.deploymentStart)
      && Head10(Get(d, "deployment_end").value) == Ok(r.value.deploymentEnd)
    ensures r.Ok? ==>
      && Elements(Get(d, "variables").value).Ok?
      && ScienceVariables(Elements(Get(d, "variables").value).value) == Ok(r.value.scienceVariables)
    ensures r.Ok? ==>
      && Some(r.value.basin) == Get(d, "basin")
      && Some(r.value.ctd) == Get(d, "ctd")
      && Some(r.value.oxygen) == Get(d, "oxygen")
      && Some(r.value.optics) == Get(d, "optics")
    ensures r.Ok? ==> r.value.irradiance == IrradianceCell(d) && r.value.ad2cp.None? && r.value.nitrate.None?
  {
    var h :- RowHead(d);
    var t :- RowTail(d);
    Ok(UserRow(SerialCell(h.serial), h.id, t.basin, h.start, h.end, t.variables, t.science,
               t.ctd, t.oxygen, t.optics, None, IrradianceCell(d), None))
  }

  /** The serial column on an example: serial 57 becomes `SEA057`. */
  lemma SerialColumn()
    ensures SerialCell(VNum(57)) == "SEA057"
  {
    assert Str(VNum(57)) == "57" by {
      assert NatToString(5) == "5";
      assert NatToString(57) == NatToString(5) + [DigitChar(7)];
      assert Str(VNum(57)) == IntToString(57) == NatToString(57);
    }
  }

  /** Build one row per item, in order, stopping at the first error. */
  function Collect<A, B>(xs: seq<A>, f: A -> Result<B>): (r: Result<seq<B>>)
    ensures r.Err? <==> exists i :: 0 <= i < |xs| && f(xs[i]).Err?
    ensures r.Ok? ==> |r.value| == |xs| && forall i :: 0 <= i < |xs| ==> f(xs[i]) == Ok(r.value[i])
  {
    if xs == [] then Ok([])
    else
      var head := f(xs[0]);
      var rest := Collect(xs[1..], f);
      if head.Err? then Err(head.error)
      else if rest.Err? then
        var j :| 0 <= j < |xs[1..]| && f(xs[1..][j]).Err?;
        assert xs[1..][j] == xs[j + 1];
        Err(rest.error)
      else
        var r := [head.value] + rest.value;
        forall i | 0 <= i < |xs|
          ensures f(xs[i]) == Ok(r[i])
        {
          if i > 0 {
            assert xs[i] == xs[1..][i - 1] && r[i] == rest.value[i - 1];
          }
        }
        Ok(r)
  }

  /** The users' table: one row per dataset, in order, or the first error. */
  function UsersTable(metas: seq<Dict<Value>>): (r: Result<seq<UserRow>>)
    ensures r.Err? <==> exists i :: 0 <= i < |metas| && UserRowOf(metas[i]).Err?
    ensures r.Ok? ==> |r.value| == |metas| && forall i :: 0 <= i < |metas| ==> UserRowOf(metas[i]) == Ok(r.value[i])
  {
    Collect(metas, UserRowOf)
  }
}
