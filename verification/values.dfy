/** The loosely typed values the metadata code handles (the attribute bags
    returned for a dataset, the dicts built from ISO 19115 XML), and
    Python's `str()` of them, which is what ends up in the CSV tables. */
module Values {
  import opened Strings

  /** A Python value: `None`, an integer, a string, a list or a dict with
      string keys (kept in insertion order). */
  datatype Value =
    | VNone
    | VNum(n: int)
    | VStr(s: string)
    | VList(items: seq<Value>)
    | VDict(entries: seq<(string, Value)>)

  /** Python's `str(v)`: a string is itself, everything else is its `repr`. */
  function Str(v: Value): (r: string)
    ensures v.VStr? ==> r == v.s
    ensures !v.VStr? ==> '\n' !in r
  {
    if v.VStr? then v.s else
      ReprNoNewline(v);
      Repr(v)
  }

  /** Python's `repr(v)`. */
  function Repr(v: Value): string
    decreases v, 1
  {
    match v
    case VNone => "None"
    case VNum(n) => IntToString(n)
    case VStr(s) => Quote(s)
    case VList(items) => "[" + ReprItems(items) + "]"
    case VDict(entries) => "{" + ReprEntries(v, 0) + "}"
  }

  /** The comma-separated reprs of a list's items. */
  function ReprItems(items: seq<Value>): string
    decreases items, 0
  {
    if items == [] then ""
    else if |items| == 1 then Repr(items[0])
    else Repr(items[0]) + ", " + ReprItems(items[1..])
  }

  /** The comma-separated `'key': value` reprs of a dict's entries from
      position `i` on. */
  function ReprEntries(d: Value, i: nat): string
    requires d.VDict? && i <= |d.entries|
    decreases d, 0, |d.entries| - i
  {
    if i == |d.entries| then ""
    else
      var e := Quote(d.entries[i].0) + ": " + Repr(d.entries[i].1);
      if i + 1 == |d.entries| then e else e + ", " + ReprEntries(d, i + 1)
  }

  /** The quote character Python's string repr picks: a double quote only
      when the text holds a single quote and no double quote. */
  function QuoteChar(s: string): char {
    if '\'' in s && '"' !in s then '"' else '\''
  }

  /** Python's repr of a string. */
  function Quote(s: string): string {
    var q := QuoteChar(s);
    [q] + Escape(s, q) + [q]
  }

  function EscapeChar(c: char, q: char): (r: string)
    ensures |r| >= 1
  {
    if c == '\\' then "\\\\"
    else if c == q then ['\\', q]
    else if c == '\n' then "\\n"
    else if c == '\r' then "\\r"
    else if c == '\t' then "\\t"
    else [c]
  }

  /** The body of a string repr: backslash, the chosen quote and the
      line-control characters written as escapes. */
  function Escape(s: string, q: char): string {
    if s == [] then "" else EscapeChar(s[0], q) + Escape(s[1..], q)
  }

  /** Reading a string repr body back: each backslash escape stands for one
      character. */
  function Unescape(t: string): string {
    if t == [] then ""
    else if t[0] == '\\' && |t| >= 2 then
      var c := if t[1] == 'n' then '\n' else if t[1] == 'r' then '\r' else if t[1] == 't' then '\t' else t[1];
      [c] + Unescape(t[2..])
    else [t[0]] + Unescape(t[1..])
  }

  /** The escaping of a string repr loses nothing: it reads back as the
      original text, whichever quote was chosen. */
  lemma {:induction false} UnescapeEscape(s: string, q: char)
    requires q == '\'' || q == '"'
    ensures Unescape(Escape(s, q)) == s
  {
    if s != [] {
      UnescapeEscape(s[1..], q);
      UnescapeEscapeChar(s[0], q, Escape(s[1..], q));
      assert [s[0]] + s[1..] == s;
    }
  }

  /** One escaped character reads back as itself, whatever follows it. */
  lemma UnescapeEscapeChar(c: char, q: char, rest: string)
    requires q == '\'' || q == '"'
    ensures Unescape(EscapeChar(c, q) + rest) == [c] + Unescape(rest)
  {
    var e := EscapeChar(c, q);
    var t := e + rest;
    if |e| == 2 {
      assert t[0] == '\\' && t[2..] == rest;
    } else {
      assert e == [c] && c != '\\';
      assert t[1..] == rest;
    }
  }

  /** A repr body never contains a raw line feed: it is always escaped. */
  lemma {:induction false} EscapeNoNewline(s: string, q: char)
    requires q != '\n'
    ensures '\n' !in Escape(s, q)
  {
    if s != [] {
      EscapeNoNewline(s[1..], q);
    }
  }

  /** A repr is always a single line. */
  lemma {:induction false} ReprNoNewline(v: Value)
    ensures '\n' !in Repr(v)
    decreases v, 1
  {
    match v
    case VNone =>
    case VNum(n) => NumberNoNewline(n);
    case VStr(s) => EscapeNoNewline(s, QuoteChar(s));
    case VList(items) => ReprItemsNoNewline(items);
    case VDict(entries) => ReprEntriesNoNewline(v, 0);
  }

  lemma {:induction false} NumberNoNewline(n: int)
    ensures '\n' !in IntToString(n)
  {
    var r := NatToString(if n < 0 then -n else n);
    assert forall i :: 0 <= i < |r| ==> r[i] != '\n';
  }

  lemma {:induction false} ReprItemsNoNewline(items: seq<Value>)
    ensures '\n' !in ReprItems(items)
    decreases items, 0
  {
    if items != [] {
      ReprNoNewline(items[0]);
      if |items| > 1 {
        ReprItemsNoNewline(items[1..]);
      }
    }
  }

  lemma {:induction false} ReprEntriesNoNewline(d: Value, i: nat)
    requires d.VDict? && i <= |d.entries|
    ensures '\n' !in ReprEntries(d, i)
    decreases d, 0, |d.entries| - i
  {
    if i < |d.entries| {
      var k := d.entries[i].0;
      EscapeNoNewline(k, QuoteChar(k));
      ReprNoNewline(d.entries[i].1);
      if i + 1 < |d.entries| {
        ReprEntriesNoNewline(d, i + 1);
      }
    }
  }
}
