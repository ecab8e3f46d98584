/** Python's `list.sort(key=..., reverse=True)`: a stable sort into
    descending key order. Items whose keys are equal keep their original
    relative order (the `reverse` flag does not break stability). */
module Sorting {

  /** An item decorated with its sort key. */
  datatype Keyed<T> = Keyed(key: real, item: T)

  predicate SortedDesc<T>(s: seq<Keyed<T>>) {
    forall i, j :: 0 <= i < j < |s| ==> s[i].key >= s[j].key
  }

  /** The items carrying key `k`, in their order of appearance. */
  function WithKey<T>(s: seq<Keyed<T>>, k: real): seq<Keyed<T>>
    decreases |s|
  {
    if |s| == 0 then [] else (if s[0].key == k then [s[0]] else []) + WithKey(s[1..], k)
  }

  function Items<T>(s: seq<Keyed<T>>): (r: seq<T>)
    ensures |r| == |s|
    ensures forall i :: 0 <= i < |s| ==> r[i] == s[i].item
  {
    seq(|s|, i requires 0 <= i < |s| => s[i].item)
  }

  /** Places `x` after every element whose key is at least its own. */
  function Insert<T(==)>(s: seq<Keyed<T>>, x: Keyed<T>): (r: seq<Keyed<T>>)
    requires SortedDesc(s)
    ensures SortedDesc(r)
    ensures |r| == |s| + 1
    ensures multiset(r) == multiset(s) + multiset{x}
    ensures forall e :: e in r ==> e == x || e in s
    decreases |s|
  {
    if |s| == 0 then [x]
    else if s[0].key >= x.key then
      var rest := Insert(s[1..], x);
      HeadDominates(s, x, rest);
      ConsSorted(s[0], rest);
      ConsMembers(s, x, rest);
      [s[0]] + rest
    else
      ConsSorted(x, s);
      [x] + s
  }

  /** An element at least as large as everything in a descending sequence
      may go in front of it. */
  lemma ConsSorted<T>(h: Keyed<T>, s: seq<Keyed<T>>)
    requires SortedDesc(s) && forall e :: e in s ==> e.key <= h.key
    ensures SortedDesc([h] + s)
  {
    var r := [h] + s;
    forall i, j | 0 <= i < j < |r| ensures r[i].key >= r[j].key {
      assert r[j] == s[j - 1];
      if i > 0 {
        assert r[i] == s[i - 1];
      } else {
        assert s[j - 1] in s;
      }
    }
  }

  /** Putting back the head keeps the element count and membership. */
  lemma ConsMembers<T>(s: seq<Keyed<T>>, x: Keyed<T>, rest: seq<Keyed<T>>)
    requires |s| > 0
    requires multiset(rest) == multiset(s[1..]) + multiset{x}
    requires forall e :: e in rest ==> e == x || e in s[1..]
    ensures multiset([s[0]] + rest) == multiset(s) + multiset{x}
    ensures forall e :: e in [s[0]] + rest ==> e == x || e in s
  {
    assert s == [s[0]] + s[1..];
  }

  /** The head of a descending sequence outranks every element of its tail,
      and so everything in the tail with `x` added. */
  lemma HeadDominates<T>(s: seq<Keyed<T>>, x: Keyed<T>, rest: seq<Keyed<T>>)
    requires SortedDesc(s) && |s| > 0 && s[0].key >= x.key
    requires forall e :: e in rest ==> e == x || e in s[1..]
    ensures forall e :: e in rest ==> e.key <= s[0].key
  {
    forall e | e in rest ensures e.key <= s[0].key {
      if e != x {
        var j :| 0 <= j < |s[1..]| && s[1..][j] == e;
        assert s[j + 1] == e;
      }
    }
  }

  /** Insertion sort, inserting the elements in their original order. */
  function SortDesc<T(==)>(s: seq<Keyed<T>>): (r: seq<Keyed<T>>)
    ensures SortedDesc(r)
    ensures |r| == |s|
    ensures multiset(r) == multiset(s)
    decreases |s|
  {
    if |s| == 0 then []
    else
      assert s == s[..|s| - 1] + [s[|s| - 1]];
      Insert(SortDesc(s[..|s| - 1]), s[|s| - 1])
  }

  lemma {:induction false} WithKeyAppend<T>(a: seq<Keyed<T>>, b: seq<Keyed<T>>, k: real)
    ensures WithKey(a + b, k) == WithKey(a, k) + WithKey(b, k)
    decreases |a|
  {
    if |a| == 0 {
      assert a + b == b;
    } else {
      var ab := a + b;
      assert ab[0] == a[0] && ab[1..] == a[1..] + b;
      WithKeyAppend(a[1..], b, k);
      WithKeyFirst(ab, k);
      WithKeyFirst(a, k);
      ConcatAssoc(if a[0].key == k then [a[0]] else [], WithKey(a[1..], k), WithKey(b, k));
    }
  }

  lemma ConcatAssoc<T>(a: seq<T>, b: seq<T>, c: seq<T>)
    ensures a + (b + c) == (a + b) + c
  {
  }

  /** One step of `WithKey`: the head, if it carries the key, then the rest. */
  lemma WithKeyFirst<T>(s: seq<Keyed<T>>, k: real)
    requires |s| > 0
    ensures WithKey(s, k) == (if s[0].key == k then [s[0]] else []) + WithKey(s[1..], k)
  {
  }

  lemma {:induction false} WithKeyAbsent<T>(s: seq<Keyed<T>>, k: real)
    requires forall i :: 0 <= i < |s| ==> s[i].key < k
    ensures WithKey(s, k) == []
    decreases |s|
  {
    if |s| > 0 {
      WithKeyAbsent(s[1..], k);
    }
  }

  /** Inserting appends `x` after the elements that share its key. */
  lemma {:induction false} InsertWithKey<T>(s: seq<Keyed<T>>, x: Keyed<T>, k: real)
    requires SortedDesc(s)
    ensures WithKey(Insert(s, x), k) == WithKey(s, k) + (if x.key == k then [x] else [])
    decreases |s|
  {
    if |s| == 0 {
    } else if s[0].key >= x.key {
      InsertWithKey(s[1..], x, k);
      InsertBehindHead(s, x, k);
    } else {
      InsertAtFront(s, x, k);
    }
  }

  /** When the head outranks `x`, inserting into the tail is all that happens. */
  lemma InsertBehindHead<T>(s: seq<Keyed<T>>, x: Keyed<T>, k: real)
    requires SortedDesc(s) && |s| > 0 && s[0].key >= x.key
    requires WithKey(Insert(s[1..], x), k) == WithKey(s[1..], k) + (if x.key == k then [x] else [])
    ensures WithKey(Insert(s, x), k) == WithKey(s, k) + (if x.key == k then [x] else [])
  {
    var r := Insert(s, x);
    var rest := Insert(s[1..], x);
    var head := if s[0].key == k then [s[0]] else [];
    var tail := if x.key == k then [x] else [];
    assert r == [s[0]] + rest;
    assert r[0] == s[0] && r[1..] == rest;
    WithKeyFirst(r, k);
    WithKeyFirst(s, k);
    assert WithKey(r, k) == head + (WithKey(s[1..], k) + tail);
    ConcatAssoc(head, WithKey(s[1..], k), tail);
  }

  /** When `x` outranks the head it goes first, ahead of no element of its key. */
  lemma InsertAtFront<T>(s: seq<Keyed<T>>, x: Keyed<T>, k: real)
    requires SortedDesc(s) && |s| > 0 && s[0].key < x.key
    ensures WithKey(Insert(s, x), k) == WithKey(s, k) + (if x.key == k then [x] else [])
  {
    assert Insert(s, x) == [x] + s;
    if x.key == k {
      WithKeyAbsent(s, k);
    }
  }

  /** The sort is stable: for every key, the items carrying it come out in
      the order they went in. */
  lemma {:induction false} SortDescStable<T>(s: seq<Keyed<T>>, k: real)
    ensures WithKey(SortDesc(s), k) == WithKey(s, k)
    decreases |s|
  {
    if |s| > 0 {
      var init := s[..|s| - 1];
      var last := s[|s| - 1];
      assert s == init + [last];
      assert SortDesc(s) == Insert(SortDesc(init), last);
      SortDescStable(init, k);
      InsertWithKey(SortDesc(init), last, k);
      WithKeyAppend(init, [last], k);
      assert WithKey([last], k) == (if last.key == k then [last] else []) by {
        assert [last][1..] == [];
      }
    }
  }

  /** In a descending sequence, nothing after position `n` outranks anything
      before it. */
  lemma PrefixDominates<T>(s: seq<Keyed<T>>, n: nat, i: int, j: int)
    requires SortedDesc(s) && n <= |s|
    requires 0 <= i < n <= j < |s|
    ensures s[j].key <= s[i].key
  {
  }
}
