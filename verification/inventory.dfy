/** The `pbsnodes -a` block format, as both utilities read it
    (`parse_pbsnodes_output`): an unindented line starts a node, and the
    indented `key = value` lines after it are that node's attributes. */
module Inventory {
  import opened Results
  import opened Text

  /** One node: its header line and the attributes read under it. The script
      holds it as the dict `{'name': header}` updated with the attributes. */
  datatype Block = Block(header: string, attrs: map<string, string>)

  /** `node.get(key, default)` on that dict. */
  function Get(b: Block, key: string, default: string): (r: string)
    ensures key in b.attrs ==> r == b.attrs[key]
    ensures key !in b.attrs && key != "name" ==> r == default
  {
    if key in b.attrs then b.attrs[key]
    else if key == "name" then b.header
    else default
  }

  /** `node['name']`: the header, unless an attribute line named `name` replaced it. */
  function Name(b: Block): string {
    Get(b, "name", b.header)
  }

  /** How one raw line of the dump is read. */
  datatype LineKind =
    | Blank                                 // empty once trailing whitespace is removed
    | Header(name: string)                  // starts a node
    | Attribute(key: string, value: string) // indented `key = value`
    | Unkeyed                               // indented, but without `=`

  function Kind(line: string): (k: LineKind)
    ensures k.Header? ==> k.name != []
  {
    var l := RStrip(line);
    if l == [] then Blank
    else if l[0] != ' ' && l[0] != '\t' then
      assert !IsSpace(l[|l| - 1]);
      Header(Strip(l))
    else
      var t := Strip(l);
      if '=' in t then
        var (key, value) := SplitFirst(t, '=');
        Attribute(Strip(key), Strip(value))
      else
        Unkeyed
  }

  /** How a line is classified: blank iff it is all whitespace; otherwise a
      header iff it does not start with a space or tab, and then its name is
      the stripped line; attribute keys and values come stripped. */
  lemma KindCases(line: string)
    ensures Kind(line) == Blank <==> forall i :: 0 <= i < |line| ==> IsSpace(line[i])
    ensures Kind(line).Header? <==> Kind(line) != Blank && line[0] != ' ' && line[0] != '\t'
    ensures Kind(line).Attribute? || Kind(line) == Unkeyed <==> Kind(line) != Blank && (line[0] == ' ' || line[0] == '\t')
    ensures Kind(line).Header? ==> Kind(line).name != [] && Trimmed(Kind(line).name)
    ensures Kind(line).Attribute? ==> Trimmed(Kind(line).key) && Trimmed(Kind(line).value)
  {
  }

  /** An indented line that is not all whitespace is read as an attribute
      exactly when it holds `=`; the others are skipped. */
  lemma IndentedKind(line: string)
    requires line != [] && (line[0] == ' ' || line[0] == '\t')
    requires RStrip(line) != []
    ensures Kind(line) != Blank
    ensures Kind(line).Attribute? <==> '=' in Strip(line)
    ensures Kind(line) == Unkeyed <==> '=' !in line
  {
    IndentedAttribute(line);
    RStripKeeps(line, '=');
    StripKeeps(RStrip(line), '=');
    StripKeeps(line, '=');
  }

  lemma IndentedAttribute(line: string)
    requires line != [] && (line[0] == ' ' || line[0] == '\t')
    requires RStrip(line) != []
    ensures Kind(line).Attribute? <==> '=' in Strip(RStrip(line))
  {
    assert RStrip(line)[0] == line[0];
  }

  /** The scanner's state: the nodes finished so far and the node being read. */
  datatype Scan = Scan(done: seq<Block>, current: Option<Block>)

  const Start := Scan([], None)

  /** The nodes a scan has produced, the one being read included. */
  function Emit(st: Scan): seq<Block> {
    st.done + (if st.current.Some? then [st.current.value] else [])
  }

  /** One step of the scan loop, on a line already classified. */
  function Feed(st: Scan, k: LineKind): Scan {
    match k
    case Blank => st
    case Unkeyed => st
    case Header(name) => Scan(Emit(st), Some(Block(name, map[])))
    case Attribute(key, value) =>
      if st.current.None? then st
      else
        var b := st.current.value;
        Scan(st.done, Some(b.(attrs := b.attrs[key := value])))
  }

  function FeedAll(st: Scan, ks: seq<LineKind>): Scan
    decreases |ks|
  {
    if |ks| == 0 then st else FeedAll(Feed(st, ks[0]), ks[1..])
  }

  function Kinds(lines: seq<string>): (ks: seq<LineKind>)
    ensures |ks| == |lines|
    ensures forall i :: 0 <= i < |lines| ==> ks[i] == Kind(lines[i])
  {
    seq(|lines|, i requires 0 <= i < |lines| => Kind(lines[i]))
  }

  /** `content.strip().split('\n')`. */
  function Lines(content: string): seq<string> {
    Split(Strip(content), '\n')
  }

  function ParseKinds(ks: seq<LineKind>): seq<Block> {
    Emit(FeedAll(Start, ks))
  }

  /** `parse_pbsnodes_output(content)` of the utilisation report: one node
      per header line, in order, named by that line stripped; the last node
      is emitted too. */
  function ParseBlocks(content: string): (r: seq<Block>)
    ensures Headers(r) == HeaderNames(Kinds(Lines(content)))
    ensures |r| == |HeaderNames(Kinds(Lines(content)))|
  {
    var ks := Kinds(Lines(content));
    HeadersOfFeedAll(Start, ks);
    HeadersLength(ParseKinds(ks));
    ParseKinds(ks)
  }

  /** The names carried by the header lines, in order. */
  function HeaderNames(ks: seq<LineKind>): seq<string>
    decreases |ks|
  {
    if |ks| == 0 then []
    else (if ks[0].Header? then [ks[0].name] else []) + HeaderNames(ks[1..])
  }

  predicate NoHeaders(ks: seq<LineKind>) {
    forall i :: 0 <= i < |ks| ==> !ks[i].Header?
  }

  function Headers(bs: seq<Block>): seq<string>
    decreases |bs|
  {
    if |bs| == 0 then [] else [bs[0].header] + Headers(bs[1..])
  }

  /** The attributes a run of lines assigns, later lines overriding earlier ones. */
  function Collect(attrs: map<string, string>, ks: seq<LineKind>): map<string, string>
    decreases |ks|
  {
    if |ks| == 0 then attrs
    else
      var next := if ks[0].Attribute? then attrs[ks[0].key := ks[0].value] else attrs;
      Collect(next, ks[1..])
  }

  lemma {:induction false} HeadersAppend(a: seq<Block>, b: seq<Block>)
    ensures Headers(a + b) == Headers(a) + Headers(b)
    decreases |a|
  {
    if |a| == 0 {
      assert a + b == b;
    } else {
      assert (a + b)[0] == a[0];
      assert (a + b)[1..] == a[1..] + b;
      HeadersAppend(a[1..], b);
    }
  }

  lemma {:induction false} FeedAllAppend(st: Scan, a: seq<LineKind>, b: seq<LineKind>)
    ensures FeedAll(st, a + b) == FeedAll(FeedAll(st, a), b)
    decreases |a|
  {
    if |a| == 0 {
      assert a + b == b;
    } else {
      assert (a + b)[0] == a[0];
      assert (a + b)[1..] == a[1..] + b;
      FeedAllAppend(Feed(st, a[0]), a[1..], b);
    }
  }

  /** Finished nodes are never revisited: the scan only appends after them. */
  lemma {:induction false} FeedAllKeepsDone(d: seq<Block>, c: Option<Block>, ks: seq<LineKind>)
    ensures FeedAll(Scan(d, c), ks).done == d + FeedAll(Scan([], c), ks).done
    ensures FeedAll(Scan(d, c), ks).current == FeedAll(Scan([], c), ks).current
    decreases |ks|
  {
    if |ks| > 0 {
      var s1 := Feed(Scan(d, c), ks[0]);
      var s2 := Feed(Scan([], c), ks[0]);
      assert s1.done == d + s2.done && s1.current == s2.current;
      FeedAllKeepsDone(s1.done, s1.current, ks[1..]);
      FeedAllKeepsDone(s2.done, s2.current, ks[1..]);
      assert d + s2.done + FeedAll(Scan([], s2.current), ks[1..]).done
          == d + (s2.done + FeedAll(Scan([], s2.current), ks[1..]).done);
    }
  }

  /** Every header line adds exactly one node, named by the stripped line, and
      nothing else adds one. */
  lemma {:induction false} HeadersOfFeedAll(st: Scan, ks: seq<LineKind>)
    ensures Headers(Emit(FeedAll(st, ks))) == Headers(Emit(st)) + HeaderNames(ks)
    decreases |ks|
  {
    if |ks| > 0 {
      var st' := Feed(st, ks[0]);
      HeadersOfFeedAll(st', ks[1..]);
      match ks[0]
      case Header(name) =>
        HeadersAppend(Emit(st), [Block(name, map[])]);
      case Attribute(key, value) =>
        if st.current.Some? {
          HeadersAppend(st.done, [st.current.value]);
          HeadersAppend(st.done, [st'.current.value]);
        }
      case Blank =>
      case Unkeyed =>
    }
  }

  lemma {:induction false} HeadersLength(bs: seq<Block>)
    ensures |Headers(bs)| == |bs|
    decreases |bs|
  {
    if |bs| > 0 {
      HeadersLength(bs[1..]);
    }
  }

  /** Attribute lines before the first node are dropped. */
  lemma {:induction false} OrphanLinesIgnored(ks: seq<LineKind>)
    requires NoHeaders(ks)
    ensures FeedAll(Start, ks) == Start
    decreases |ks|
  {
    if |ks| > 0 {
      assert !ks[0].Header?;
      assert Feed(Start, ks[0]) == Start;
      OrphanLinesIgnored(ks[1..]);
    }
  }

  /** Lines before a header never reach the nodes that follow it: parsing
      splits cleanly at every header line. */
  lemma ParseSplitsAtHeader(a: seq<LineKind>, b: seq<LineKind>)
    requires |b| > 0 && b[0].Header?
    ensures ParseKinds(a + b) == ParseKinds(a) + ParseKinds(b)
  {
    FeedAllAppend(Start, a, b);
    var sa := FeedAll(Start, a);
    var first := Some(Block(b[0].name, map[]));
    assert Feed(sa, b[0]) == Scan(Emit(sa), first);
    assert FeedAll(sa, b) == FeedAll(Scan(Emit(sa), first), b[1..]);
    assert Emit(Start) == [];
    assert Feed(Start, b[0]) == Scan([], first);
    assert FeedAll(Start, b) == FeedAll(Scan([], first), b[1..]);
    FeedAllKeepsDone(Emit(sa), first, b[1..]);
  }

  /** A header followed by non-header lines makes one node holding exactly
      the attributes those lines assign. */
  lemma OneBlock(name: string, body: seq<LineKind>)
    requires NoHeaders(body)
    ensures ParseKinds([Header(name)] + body) == [Block(name, Collect(map[], body))]
  {
    var ks := [Header(name)] + body;
    assert ks[0] == Header(name);
    assert ks[1..] == body;
    assert Emit(Start) == [];
    assert Feed(Start, ks[0]) == Scan([], Some(Block(name, map[])));
    assert FeedAll(Start, ks) == FeedAll(Scan([], Some(Block(name, map[]))), body);
    BodyCollects(Block(name, map[]), body);
  }

  lemma {:induction false} BodyCollects(b: Block, body: seq<LineKind>)
    requires NoHeaders(body)
    ensures FeedAll(Scan([], Some(b)), body) == Scan([], Some(b.(attrs := Collect(b.attrs, body))))
    decreases |body|
  {
    if |body| > 0 {
      var k := body[0];
      assert !k.Header?;
      var b' := if k.Attribute? then b.(attrs := b.attrs[k.key := k.value]) else b;
      assert Feed(Scan([], Some(b)), k) == Scan([], Some(b'));
      BodyCollects(b', body[1..]);
    }
  }

  /** Stripping an indented line removes exactly the indentation, whatever
      whitespace it is made of. */
  lemma StripIndented(w: string, t: string)
    requires w != [] && forall i :: 0 <= i < |w| ==> IsSpace(w[i])
    requires t != [] && Trimmed(t)
    ensures RStrip(w + t) == w + t
    ensures Strip(w + t) == t
  {
    var line := w + t;
    assert line[|line| - 1] == t[|t| - 1];
    LStripIndent(w, t);
  }

  lemma {:induction false} LStripIndent(w: string, t: string)
    requires forall i :: 0 <= i < |w| ==> IsSpace(w[i])
    requires t != [] && !IsSpace(t[0])
    ensures LStrip(w + t) == t
    decreases |w|
  {
    if w == [] {
      assert w + t == t;
    } else {
      assert (w + t)[0] == w[0];
      assert (w + t)[1..] == w[1..] + t;
      LStripIndent(w[1..], t);
    }
  }

  /** Whitespace on either side of a stripped text is exactly what
      `strip()` removes. */
  lemma StripPadded(w: string, t: string, r: string)
    requires forall i :: 0 <= i < |w| ==> IsSpace(w[i])
    requires forall i :: 0 <= i < |r| ==> IsSpace(r[i])
    requires Trimmed(t)
    ensures Strip(w + t + r) == t
  {
    var s := w + t + r;
    if t == [] {
      assert forall i :: 0 <= i < |s| ==> IsSpace(s[i]) by {
        forall i | 0 <= i < |s| ensures IsSpace(s[i]) {
          if i < |w| { assert s[i] == w[i]; } else { assert s[i] == r[i - |w|]; }
        }
      }
    } else {
      assert s == w + (t + r);
      assert (t + r)[0] == t[0];
      LStripIndent(w, t + r);
      RStripTrailing(t, r);
    }
  }

  /** An indented `key = value` line, with any indentation and any blanks
      around the `=`, is the attribute `key` with the value `value`; the line
      is split at its first `=` only, so the value keeps any further `=`. */
  lemma AttributeLine(w: string, key: string, p: string, q: string, value: string)
    requires w != [] && (w[0] == ' ' || w[0] == '\t') && forall i :: 0 <= i < |w| ==> IsSpace(w[i])
    requires forall i :: 0 <= i < |p| ==> IsSpace(p[i])
    requires forall i :: 0 <= i < |q| ==> IsSpace(q[i])
    requires key != [] && Trimmed(key) && '=' !in key
    requires Trimmed(value)
    ensures Kind(w + key + p + ['='] + q + value) == Attribute(key, value)
  {
    var rest := if value == [] then [] else q + value;
    var t := key + p + ['='] + rest;
    AttributePieces(w, key, p, q, value, rest, t);
    IndentedAttributeKind(w + key + p + ['='] + q + value, w + t, t, key + p, rest);
  }

  /** A line as `pbsnodes -a` prints it. */
  lemma StateLine()
    ensures Kind("    state = free") == Attribute("state", "free")
  {
    assert "    state = free" == "    " + "state" + " " + ['='] + " " + "free";
    AttributeLine("    ", "state", " ", " ", "free");
  }

  /** The stripped text of an attribute line, and its split at the first `=`. */
  lemma AttributePieces(w: string, key: string, p: string, q: string, value: string, rest: string, t: string)
    requires w != [] && forall i :: 0 <= i < |w| ==> IsSpace(w[i])
    requires forall i :: 0 <= i < |p| ==> IsSpace(p[i])
    requires forall i :: 0 <= i < |q| ==> IsSpace(q[i])
    requires key != [] && Trimmed(key) && '=' !in key
    requires Trimmed(value)
    requires rest == (if value == [] then [] else q + value) && t == key + p + ['='] + rest
    ensures RStrip(w + key + p + ['='] + q + value) == w + t
    ensures (w + t)[0] == w[0] && Strip(w + t) == t
    ensures '=' in t && SplitFirst(t, '=') == (key + p, rest)
    ensures Strip(key + p) == key && Strip(rest) == value
  {
    StrippedAttribute(w, key, p, q, value, rest, t);
    SplitAttribute(key, p, rest, t);
    StripAfter(key, p);
    StripBefore(q, value);
  }

  lemma StrippedAttribute(w: string, key: string, p: string, q: string, value: string, rest: string, t: string)
    requires w != [] && forall i :: 0 <= i < |w| ==> IsSpace(w[i])
    requires forall i :: 0 <= i < |q| ==> IsSpace(q[i])
    requires key != [] && Trimmed(key) && Trimmed(value)
    requires rest == (if value == [] then [] else q + value) && t == key + p + ['='] + rest
    ensures RStrip(w + key + p + ['='] + q + value) == w + t
    ensures (w + t)[0] == w[0] && Strip(w + t) == t
  {
    var tail := if value == [] then q else [];
    AttributeShape(w, key, p, q, value, rest, t);
    assert t[0] == key[0];
    assert t[|t| - 1] == if value == [] then '=' else value[|value| - 1];
    IndentedText(w + key + p + ['='] + q + value, w, t, tail);
  }

  /** The line is its indentation, its stripped text and trailing blanks. */
  lemma AttributeShape(w: string, key: string, p: string, q: string, value: string, rest: string, t: string)
    requires rest == (if value == [] then [] else q + value) && t == key + p + ['='] + rest
    ensures w + key + p + ['='] + q + value == w + t + (if value == [] then q else [])
  {
    if value == [] {
      assert w + key + p + ['='] + q + value == w + (key + p + ['=']) + q;
    } else {
      assert w + key + p + ['='] + q + value == w + (key + p + ['='] + (q + value)) + [];
    }
  }

  lemma IndentedText(line: string, w: string, t: string, tail: string)
    requires w != [] && forall i :: 0 <= i < |w| ==> IsSpace(w[i])
    requires forall i :: 0 <= i < |tail| ==> IsSpace(tail[i])
    requires t != [] && Trimmed(t) && line == w + t + tail
    ensures RStrip(line) == w + t
    ensures (w + t)[0] == w[0] && Strip(w + t) == t
  {
    RStripTrailing(w + t, tail);
    StripIndented(w, t);
  }

  lemma SplitAttribute(key: string, p: string, rest: string, t: string)
    requires forall i :: 0 <= i < |p| ==> IsSpace(p[i])
    requires '=' !in key && t == key + p + ['='] + rest
    ensures '=' in t && SplitFirst(t, '=') == (key + p, rest)
  {
    var lhs := key + p;
    assert '=' !in lhs by {
      forall i | 0 <= i < |lhs| ensures lhs[i] != '=' {
        if i < |key| { assert lhs[i] == key[i]; } else { assert IsSpace(lhs[i]); }
      }
    }
    assert t[|lhs|] == '=';
    SplitFirstJoin(lhs, '=', rest);
  }

  lemma StripAfter(t: string, r: string)
    requires forall i :: 0 <= i < |r| ==> IsSpace(r[i])
    requires Trimmed(t)
    ensures Strip(t + r) == t
  {
    assert [] + t + r == t + r;
    StripPadded([], t, r);
  }

  lemma StripBefore(w: string, t: string)
    requires forall i :: 0 <= i < |w| ==> IsSpace(w[i])
    requires Trimmed(t)
    ensures Strip(w + t) == t
    ensures t == [] ==> Strip([]) == []
  {
    assert w + t + [] == w + t;
    StripPadded(w, t, []);
  }

  /** The step of `AttributeLine` once the stripped text and its split are known. */
  lemma IndentedAttributeKind(line: string, l: string, t: string, k: string, v: string)
    requires RStrip(line) == l && l != [] && (l[0] == ' ' || l[0] == '\t') && Strip(l) == t
    requires '=' in t && SplitFirst(t, '=') == (k, v)
    ensures Kind(line) == Attribute(Strip(k), Strip(v))
  {
  }
}
