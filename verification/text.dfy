/** The handful of Python `str` operations the two utilities rely on,
    modelled on `seq<char>`: `strip`/`lstrip`/`rstrip`, `lower`/`upper`,
    `in` (substring), `startswith`/`endswith`, `split(sep)` and `split(sep, 1)`. */
module Text {

  /** The characters Python's `str.isspace()` accepts, i.e. the characters
      `str.strip()` with no argument removes. */
  predicate IsSpace(c: char) {
    var n := c as int;
    || (9 <= n <= 13)
    || (28 <= n <= 32)
    || n == 0x85 || n == 0xA0 || n == 0x1680
    || (0x2000 <= n <= 0x200A)
    || n == 0x2028 || n == 0x2029 || n == 0x202F || n == 0x205F || n == 0x3000
  }

  /** True when the first and last characters are not whitespace. */
  predicate Trimmed(s: string) {
    s == [] || (!IsSpace(s[0]) && !IsSpace(s[|s| - 1]))
  }

  /** `s.lstrip()`: the longest suffix that does not start with whitespace. */
  function LStrip(s: string): (r: string)
    ensures |r| <= |s| && r == s[|s| - |r|..]
    ensures forall i :: 0 <= i < |s| - |r| ==> IsSpace(s[i])
    ensures r == [] || !IsSpace(r[0])
    decreases |s|
  {
    if |s| > 0 && IsSpace(s[0]) then LStrip(s[1..]) else s
  }

  /** `s.rstrip()`: the longest prefix that does not end with whitespace. */
  function RStrip(s: string): (r: string)
    ensures |r| <= |s| && r == s[..|r|]
    ensures forall i :: |r| <= i < |s| ==> IsSpace(s[i])
    ensures r == [] || !IsSpace(r[|r| - 1])
    decreases |s|
  {
    if |s| > 0 && IsSpace(s[|s| - 1]) then RStrip(s[..|s| - 1]) else s
  }

  /** `s.strip()`. */
  function Strip(s: string): (r: string)
    ensures |r| <= |s|
    ensures Trimmed(r)
    ensures Trimmed(s) ==> r == s
    ensures r == [] <==> forall i :: 0 <= i < |s| ==> IsSpace(s[i])
  {
    var l := LStrip(s);
    var r := RStrip(l);
    assert l != [] ==> r != [] by {
      if l != [] {
        assert !IsSpace(l[0]);
      }
    }
    r
  }

  function LowerChar(c: char): char {
    if 'A' <= c <= 'Z' then (c as int + 32) as char else c
  }

  function UpperChar(c: char): char {
    if 'a' <= c <= 'z' then (c as int - 32) as char else c
  }

  /** `s.lower()` on ASCII letters; every other character is left alone. */
  function Lower(s: string): (r: string)
    ensures |r| == |s|
    ensures forall i :: 0 <= i < |s| ==> r[i] == LowerChar(s[i])
  {
    seq(|s|, i requires 0 <= i < |s| => LowerChar(s[i]))
  }

  /** `s.upper()` on ASCII letters; every other character is left alone. */
  function Upper(s: string): (r: string)
    ensures |r| == |s|
    ensures forall i :: 0 <= i < |s| ==> r[i] == UpperChar(s[i])
  {
    seq(|s|, i requires 0 <= i < |s| => UpperChar(s[i]))
  }

  /** Python's `sub in s` on strings. */
  predicate Contains(s: string, sub: string) {
    exists i | 0 <= i <= |s| - |sub| :: OccursAt(s, sub, i)
  }

  predicate OccursAt(s: string, sub: string, i: int) {
    0 <= i <= |s| - |sub| && s[i..i + |sub|] == sub
  }

  predicate StartsWith(s: string, prefix: string) {
    |prefix| <= |s| && s[..|prefix|] == prefix
  }

  predicate EndsWith(s: string, suffix: string) {
    |suffix| <= |s| && s[|s| - |suffix|..] == suffix
  }

  /** A text ending with a suffix ends with the suffix's last character. */
  lemma EndsWithLast(s: string, suffix: string)
    requires |suffix| >= 1 && EndsWith(s, suffix)
    ensures EndsWith(s, [suffix[|suffix| - 1]])
  {
    assert s[|s| - 1..] == s[|s| - |suffix|..][|suffix| - 1..];
  }

  /** Position of the first occurrence of `c` (Python's `s.index(c)`). */
  function IndexOf(s: string, c: char): (i: nat)
    requires c in s
    ensures i < |s| && s[i] == c && c !in s[..i]
  {
    if s[0] == c then 0
    else
      assert c in s[1..] by { assert s == [s[0]] + s[1..]; }
      var j := IndexOf(s[1..], c);
      assert s[..j + 1] == [s[0]] + s[1..][..j];
      j + 1
  }

  /** `s.split(sep)[0]`: everything before the first `sep`. */
  function Before(s: string, sep: char): (r: string)
    ensures sep !in r
    ensures StartsWith(s, r)
  {
    if sep in s then s[..IndexOf(s, sep)] else s
  }

  /** `s.split(sep, 1)` for a string that contains `sep`. */
  function SplitFirst(s: string, sep: char): (r: (string, string))
    requires sep in s
    ensures sep !in r.0
    ensures r.0 + [sep] + r.1 == s
  {
    var i := IndexOf(s, sep);
    assert s == s[..i] + [sep] + s[i + 1..];
    (s[..i], s[i + 1..])
  }

  /** `sep.join(parts)`. */
  function Join(parts: seq<string>, sep: char): string
  {
    if |parts| == 0 then ""
    else if |parts| == 1 then parts[0]
    else parts[0] + [sep] + Join(parts[1..], sep)
  }

  /** `s.split(sep)`: the pieces between separators, empty pieces kept. */
  function Split(s: string, sep: char): (parts: seq<string>)
    ensures |parts| >= 1
    ensures forall i :: 0 <= i < |parts| ==> sep !in parts[i]
    ensures Join(parts, sep) == s
    decreases |s|
  {
    if sep in s then
      var i := IndexOf(s, sep);
      var rest := Split(s[i + 1..], sep);
      var parts := [s[..i]] + rest;
      assert parts[1..] == rest;
      assert s == s[..i] + [sep] + s[i + 1..];
      parts
    else
      [s]
  }

  /** The first separator of `a + [sep] + b` is the one after `a` when `a`
      holds none. */
  lemma {:induction false} IndexOfAfterSegment(a: string, sep: char, b: string)
    requires sep !in a
    ensures IndexOf(a + [sep] + b, sep) == |a|
  {
    var s := a + [sep] + b;
    if |a| > 0 {
      assert s[1..] == a[1..] + [sep] + b;
      assert sep !in a[1..];
      IndexOfAfterSegment(a[1..], sep, b);
    }
  }

  /** Stripping removes only whitespace, so a visible character is in the
      stripped text exactly when it is in the text. */
  lemma StripKeeps(s: string, c: char)
    requires !IsSpace(c)
    ensures c in Strip(s) <==> c in s
  {
    LStripKeeps(s, c);
    RStripKeeps(LStrip(s), c);
  }

  /** `lstrip()` removes only whitespace. */
  lemma LStripKeeps(s: string, c: char)
    requires !IsSpace(c)
    ensures c in LStrip(s) <==> c in s
  {
    var l := LStrip(s);
    if c in s {
      var i :| 0 <= i < |s| && s[i] == c;
      assert l[i - (|s| - |l|)] == c;
    }
  }

  /** `rstrip()` removes only whitespace. */
  lemma RStripKeeps(s: string, c: char)
    requires !IsSpace(c)
    ensures c in RStrip(s) <==> c in s
  {
    if c in s {
      var i :| 0 <= i < |s| && s[i] == c;
      assert RStrip(s)[i] == c;
    }
  }

  /** Trailing whitespace after a text that ends visibly is exactly what
      `rstrip()` removes. */
  lemma {:induction false} RStripTrailing(t: string, r: string)
    requires t == [] || !IsSpace(t[|t| - 1])
    requires forall i :: 0 <= i < |r| ==> IsSpace(r[i])
    ensures RStrip(t + r) == t
    decreases |r|
  {
    if r == [] {
      assert t + r == t;
    } else {
      var s := t + r;
      assert s[|s| - 1] == r[|r| - 1];
      assert s[..|s| - 1] == t + r[..|r| - 1];
      RStripTrailing(t, r[..|r| - 1]);
    }
  }

  /** `split(sep, 1)` recovers a key and a value joined by their first separator. */
  lemma SplitFirstJoin(key: string, sep: char, value: string)
    requires sep !in key
    ensures SplitFirst(key + [sep] + value, sep) == (key, value)
  {
    var s := key + [sep] + value;
    IndexOfAfterSegment(key, sep, value);
    assert s[..|key|] == key;
    assert s[|key| + 1..] == value;
  }

  /** Splitting a join of separator-free pieces gives the pieces back. */
  lemma {:induction false} SplitJoin(parts: seq<string>, sep: char)
    requires |parts| >= 1
    requires forall i :: 0 <= i < |parts| ==> sep !in parts[i]
    ensures Split(Join(parts, sep), sep) == parts
  {
    if |parts| > 1 {
      var tail := Join(parts[1..], sep);
      var s := parts[0] + [sep] + tail;
      assert Join(parts, sep) == s;
      IndexOfAfterSegment(parts[0], sep, tail);
      assert s[|parts[0]|] == sep;
      assert s[..|parts[0]|] == parts[0];
      assert s[|parts[0]| + 1..] == tail;
      assert Split(s, sep) == [parts[0]] + Split(tail, sep);
      SplitJoin(parts[1..], sep);
      assert parts == [parts[0]] + parts[1..];
    }
  }
}
