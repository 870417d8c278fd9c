/** `_etree_to_dict`: the conversion of a parsed XML element (here the
    ISO 19115 metadata record of a dataset) into nested dicts. An element
    becomes a one-key dict from its tag to its content; children are grouped
    by tag, a tag seen once holding the child's content and a repeated tag
    the list of contents; attributes become `@name` keys and non-blank text
    a `#text` key, while an element with neither children nor attributes is
    just its stripped text. */
module Etree {
  import opened Wrappers
  import opened Strings
  import opened Dicts
  import opened Values

  /** An XML element: tag, attributes in document order, the text before
      the first child (`""` standing for both no text and empty text, which
      the conversion treats alike), and the child elements. */
  datatype Element = Element(tag: string, attrib: Dict<string>, text: string, children: seq<Element>)

  /** A tag that cannot collide with the keys the conversion adds: it is
      not `#text` and does not start with `@`. Tags in ElementTree's
      `{uri}local` form may contain `#` elsewhere. */
  predicate XmlName(s: string) {
    s != "#text" && (s == [] || s[0] != '@')
  }

  /** `_etree_to_dict(t)`. */
  function ToDict(t: Element): (r: Value)
    ensures r.VDict? && Keys(r.entries) == [t.tag]
  {
    VDict([(t.tag, Content(t))])
  }

  /** The value stored under the element's tag. */
  function Content(t: Element): Value
    decreases t, 1
  {
    var base :=
      if t.children != [] then VDict(Unwrapped(Group(t, |t.children|)))
      else if t.attrib != [] then VDict([])
      else VNone;
    var withAttrs := if t.attrib != [] then VDict(SetAll(base.entries, AttrPairs(t.attrib))) else base;
    if t.text == [] then withAttrs
    else
      var text := Strip(t.text);
      if t.children != [] || t.attrib != [] then
        if text != [] then VDict(Set(withAttrs.entries, "#text", VStr(text))) else withAttrs
      else VStr(text)
  }

  /** The `defaultdict(list)` built from the first `n` children: per child
      tag, in order of first occurrence, the contents of the children with
      that tag. */
  function Group(t: Element, n: nat): Dict<seq<Value>>
    requires n <= |t.children|
    decreases t, 0, n
  {
    if n == 0 then []
    else
      var g := Group(t, n - 1);
      var c := t.children[n - 1];
      Set(g, c.tag, Get(g, c.tag).GetOr([]) + [Content(c)])
  }

  /** A group of one is its single content, a longer group the list. */
  function Unwrap(vs: seq<Value>): Value {
    if |vs| == 1 then vs[0] else VList(vs)
  }

  function Unwrapped(g: Dict<seq<Value>>): (r: Dict<Value>)
    ensures Keys(r) == Keys(g)
  {
    seq(|g|, i requires 0 <= i < |g| => (g[i].0, Unwrap(g[i].1)))
  }

  /** The attributes as `@name` keys. */
  function AttrPairs(a: Dict<string>): (r: Dict<Value>)
    ensures |r| == |a| && forall i :: 0 <= i < |a| ==> r[i] == ("@" + a[i].0, VStr(a[i].1))
  {
    seq(|a|, i requires 0 <= i < |a| => ("@" + a[i].0, VStr(a[i].1)))
  }

  /** The contents of the children tagged `tag`, in document order: the
      reference for what the grouping stores. */
  function Tagged(cs: seq<Element>, tag: string): seq<Value> {
    if cs == [] then []
    else Tagged(cs[..|cs| - 1], tag) + (if cs[|cs| - 1].tag == tag then [Content(cs[|cs| - 1])] else [])
  }

  // ---------------------------------------------------------------------
  // properties

  /** The grouping stores under each tag exactly the contents of the
      children with that tag, and nothing under tags no child has. */
  lemma {:induction false} GroupGet(t: Element, n: nat, tag: string)
    requires n <= |t.children|
    ensures var ts := Tagged(t.children[..n], tag);
      Get(Group(t, n), tag) == if ts == [] then None else Some(ts)
  {
    if n == 0 {
      assert t.children[..n] == [];
      assert Get(Group(t, n), tag) == None;
    } else {
      GroupGet(t, n - 1, tag);
      var g, c := Group(t, n - 1), t.children[n - 1];
      var ts0 := Tagged(t.children[..n - 1], tag);
      assert Group(t, n) == Set(g, c.tag, Get(g, c.tag).GetOr([]) + [Content(c)]);
      TaggedStep(t.children, n, tag);
      GroupSetStep(g, c.tag, Content(c), tag, ts0);
    }
  }

  lemma TaggedStep(cs: seq<Element>, n: nat, tag: string)
    requires 0 < n <= |cs|
    ensures Tagged(cs[..n], tag) == Tagged(cs[..n - 1], tag) + (if cs[n - 1].tag == tag then [Content(cs[n - 1])] else [])
  {
    assert cs[..n][..n - 1] == cs[..n - 1];
  }

  /** One grouping step appends `x` under `ctag` and leaves other tags alone. */
  lemma GroupSetStep(g: Dict<seq<Value>>, ctag: string, x: Value, tag: string, ts0: seq<Value>)
    requires Get(g, tag) == if ts0 == [] then None else Some(ts0)
    ensures var ts := ts0 + (if ctag == tag then [x] else []);
      Get(Set(g, ctag, Get(g, ctag).GetOr([]) + [x]), tag) == if ts == [] then None else Some(ts)
  {
    var v := Get(g, ctag).GetOr([]) + [x];
    if ctag == tag {
      assert Get(Set(g, ctag, v), tag) == Some(v);
      assert v == ts0 + [x];
    } else {
      assert Get(Set(g, ctag, v), tag) == Get(g, tag);
      assert ts0 + [] == ts0;
    }
  }

  lemma GetUnwrapped(g: Dict<seq<Value>>, k: string)
    ensures Get(Unwrapped(g), k) == if Get(g, k).Some? then Some(Unwrap(Get(g, k).value)) else None
  {
  }

  /** An element with neither children nor attributes becomes its text
      stripped of surrounding whitespace, or `None` when it has no text. */
  lemma LeafIsText(t: Element)
    requires t.children == [] && t.attrib == []
    ensures Content(t) == if t.text == [] then VNone else VStr(Strip(t.text))
    ensures Content(t).VStr? ==> exists i :: StrippedAt(t.text, Content(t).s, i)
  {
  }

  /** The grouped children's entries (none for a childless element). */
  function ChildEntries(t: Element): Dict<Value> {
    if t.children != [] then Unwrapped(Group(t, |t.children|)) else []
  }

  /** The children's entries with the attributes assigned over them. */
  function Fields(t: Element): Dict<Value> {
    SetAll(ChildEntries(t), AttrPairs(t.attrib))
  }

  /** An element with children or attributes becomes a dict holding its
      fields, plus its stripped text under `#text` when that is not blank. */
  lemma ContentFields(t: Element)
    requires t.children != [] || t.attrib != []
    ensures Content(t).VDict?
    ensures forall k :: k != "#text" ==> Get(Content(t).entries, k) == Get(Fields(t), k)
    ensures Get(Content(t).entries, "#text") ==
      if Strip(t.text) == [] then Get(Fields(t), "#text") else Some(VStr(Strip(t.text)))
  {
    var w := Fields(t);
    var base :=
      if t.children != [] then VDict(Unwrapped(Group(t, |t.children|)))
      else if t.attrib != [] then VDict([])
      else VNone;
    assert base == VDict(ChildEntries(t));
    var withAttrs := if t.attrib != [] then VDict(SetAll(base.entries, AttrPairs(t.attrib))) else base;
    assert withAttrs == VDict(w) by {
      if t.attrib == [] {
        assert AttrPairs(t.attrib) == [];
      }
    }
    var text := Strip(t.text);
    if t.text == [] {
      assert text == [];
      assert Content(t) == withAttrs;
    } else if text != [] {
      assert Content(t) == VDict(Set(w, "#text", VStr(text)));
    } else {
      assert Content(t) == withAttrs;
    }
  }

  /** `@`-prefixing keeps distinct attribute names distinct. */
  lemma AttrPairsUnique(a: Dict<string>)
    requires UniqueKeys(a)
    ensures UniqueKeys(AttrPairs(a))
  {
    var ps := AttrPairs(a);
    forall x, y | 0 <= x < y < |ps|
      ensures ps[x].0 != ps[y].0
    {
      assert ps[x].0[1..] == a[x].0;
      assert ps[y].0[1..] == a[y].0;
    }
  }

  /** Every attribute `k="v"` shows up as the key `@k` with value `v`. */
  lemma AttributeKept(t: Element, i: nat)
    requires UniqueKeys(t.attrib) && i < |t.attrib|
    ensures Content(t).VDict?
    ensures Get(Content(t).entries, "@" + t.attrib[i].0) == Some(VStr(t.attrib[i].1))
  {
    var ps := AttrPairs(t.attrib);
    var key := "@" + t.attrib[i].0;
    ContentFields(t);
    AttrPairsUnique(t.attrib);
    LastValueUnique(ps, i);
    GetSetAll(ChildEntries(t), ps, key);
    assert key[0] == '@' && "#text"[0] == '#';
  }

  /** With children or attributes, non-blank text is kept, stripped, under
      `#text`, and blank text leaves no `#text` key, unless a child is itself
      tagged `#text`. */
  lemma TextKept(t: Element)
    requires t.children != [] || t.attrib != []
    requires forall j :: 0 <= j < |t.children| ==> t.children[j].tag != "#text"
    ensures Content(t).VDict?
    ensures Get(Content(t).entries, "#text") ==
      if Strip(t.text) == [] then None else Some(VStr(Strip(t.text)))
  {
    ContentFields(t);
    calc {
      Get(Content(t).entries, "#text");
      if Strip(t.text) == [] then Get(Fields(t), "#text") else Some(VStr(Strip(t.text)));
      { FieldsGet(t, "#text"); ChildEntriesNoText(t); }
      if Strip(t.text) == [] then None else Some(VStr(Strip(t.text)));
    }
  }

  /** Keys that are no attribute key are looked up among the children. */
  lemma FieldsGet(t: Element, k: string)
    requires k == [] || k[0] != '@'
    ensures Get(Fields(t), k) == Get(ChildEntries(t), k)
  {
    var ps := AttrPairs(t.attrib);
    assert k !in Keys(ps) by {
      forall j | 0 <= j < |ps|
        ensures ps[j].0 != k
      {
        assert ps[j].0[0] == '@';
      }
    }
    GetSetAll(ChildEntries(t), ps, k);
  }

  /** No child is grouped under `#text`. */
  lemma ChildEntriesNoText(t: Element)
    requires forall j :: 0 <= j < |t.children| ==> t.children[j].tag != "#text"
    ensures Get(ChildEntries(t), "#text") == None
  {
    var n := |t.children|;
    if n > 0 {
      TaggedNone(t.children, "#text");
      assert t.children[..n] == t.children;
      GroupGet(t, n, "#text");
      GetUnwrapped(Group(t, n), "#text");
    }
  }

  /** A name never collides with the keys the conversion adds. */
  lemma NameIsNoKey(s: string)
    requires XmlName(s)
    ensures s != "#text"
    ensures forall k :: s != "@" + k
  {
    forall k
      ensures s != "@" + k
    {
      assert ("@" + k)[0] == '@';
    }
  }

  /** No child tagged `tag` means nothing is grouped under it. */
  lemma {:induction false} TaggedNone(cs: seq<Element>, tag: string)
    requires forall j :: 0 <= j < |cs| ==> cs[j].tag != tag
    ensures Tagged(cs, tag) == []
  {
    if cs != [] {
      TaggedNone(cs[..|cs| - 1], tag);
    }
  }

  /** The value under a child tag is the content of the one child with
      that tag, or the list of the contents of all of them in document
      order; tags no child has are absent. */
  lemma ChildrenGrouped(t: Element, tag: string)
    requires t.children != [] && XmlName(tag)
    ensures Content(t).VDict?
    ensures var ts := Tagged(t.children, tag);
      Get(Content(t).entries, tag) == if ts == [] then None else Some(Unwrap(ts))
  {
    ContentFields(t);
    NameIsNoKey(tag);
    var ts := Tagged(t.children, tag);
    calc {
      Get(Content(t).entries, tag);
      Get(Fields(t), tag);
      { assert tag == [] || tag[0] != '@'; FieldsGet(t, tag); }
      Get(ChildEntries(t), tag);
      { ChildEntriesGet(t, tag); }
      if ts == [] then None else Some(Unwrap(ts));
    }
  }

  lemma ChildEntriesGet(t: Element, tag: string)
    requires t.children != []
    ensures var ts := Tagged(t.children, tag);
      Get(ChildEntries(t), tag) == if ts == [] then None else Some(Unwrap(ts))
  {
    var n := |t.children|;
    GroupGet(t, n, tag);
    assert t.children[..n] == t.children;
    GetUnwrapped(Group(t, n), tag);
  }
}
