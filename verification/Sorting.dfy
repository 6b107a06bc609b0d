/**
 The insertion sort that both canonical encodings use: an array of indices is
 sorted in place by the elements they name.
 */
module Sorting {
  /** `after` is a strict order that compares any two elements of a collection with distinct keys. */
  ghost predicate StrictOrder<T(!new)>(after: (T, T) -> bool) {
    && (forall x, y :: after(x, y) ==> !after(y, x))
    && (forall x, y, z :: after(x, y) && after(y, z) ==> after(x, z))
  }

  predicate Distinct<T(==)>(after: (T, T) -> bool, s: seq<T>) {
    forall i, j :: 0 <= i < j < |s| ==> after(s[i], s[j]) || after(s[j], s[i])
  }

  predicate Ascending<T>(after: (T, T) -> bool, s: seq<T>) {
    forall i, j :: 0 <= i < j < |s| ==> after(s[j], s[i])
  }

  /** One turn of the insertion sort: `item` goes left past every element that belongs after it. */
  function InsertRight<T>(after: (T, T) -> bool, s: seq<T>, item: T): (r: seq<T>)
    ensures |r| == |s| + 1
  {
    if s == [] || !after(s[|s| - 1], item) then s + [item]
    else InsertRight(after, s[..|s| - 1], item) + [s[|s| - 1]]
  }

  function Ordered<T>(after: (T, T) -> bool, items: seq<T>): (r: seq<T>)
    ensures |r| == |items|
  {
    if items == [] then [] else InsertRight(after, Ordered(after, items[..|items| - 1]), items[|items| - 1])
  }

  lemma {:induction false} InsertRightSorts<T(!new)>(after: (T, T) -> bool, s: seq<T>, item: T)
    requires StrictOrder(after) && Ascending(after, s)
    requires forall x :: x in s ==> after(x, item) || after(item, x)
    ensures Ascending(after, InsertRight(after, s, item))
    ensures forall x :: x in InsertRight(after, s, item) <==> x in s || x == item
  {
    if s != [] && after(s[|s| - 1], item) {
      var front, last := s[..|s| - 1], s[|s| - 1];
      assert s == front + [last];
      InsertRightSorts(after, front, item);
      var r := InsertRight(after, front, item);
      forall i | 0 <= i < |r|
        ensures after(last, r[i])
      {
        assert r[i] in r;
      }
    } else if s != [] {
      assert s[|s| - 1] in s;
      forall i | 0 <= i < |s|
        ensures after(item, s[i])
      {
        assert i < |s| - 1 ==> after(s[|s| - 1], s[i]);
      }
    }
  }

  lemma {:induction false} OrderedSorts<T(!new)>(after: (T, T) -> bool, items: seq<T>)
    requires StrictOrder(after) && Distinct(after, items)
    ensures Ascending(after, Ordered(after, items)) && forall x :: x in Ordered(after, items) <==> x in items
  {
    if items != [] {
      var front, last := items[..|items| - 1], items[|items| - 1];
      assert items == front + [last];
      OrderedSorts(after, front);
      forall x | x in Ordered(after, front)
        ensures after(x, last) || after(last, x)
      {
        var i :| 0 <= i < |front| && front[i] == x;
        assert items[i] == x && items[|items| - 1] == last;
      }
      InsertRightSorts(after, Ordered(after, front), last);
    }
  }

  lemma NonEmptyHasElement<T>(t: seq<T>)
    ensures t != [] ==> exists x :: x in t
  {
    if t != [] {
      assert t[0] in t;
    }
  }

  /** A collection has only one ascending sequence. */
  lemma {:induction false} AscendingIsUnique<T(!new)>(after: (T, T) -> bool, s: seq<T>, t: seq<T>)
    requires StrictOrder(after) && Ascending(after, s) && Ascending(after, t) && forall x :: x in s <==> x in t
    ensures s == t
  {
    if s == [] {
      NonEmptyHasElement(t);
    } else {
      assert s[0] in t;
      assert t[0] in s;
      assert s[0] == t[0];
      forall x
        ensures x in s[1..] <==> x in t[1..]
      {
        assert x in s[1..] ==> x in s && after(x, s[0]);
        assert x in t[1..] ==> x in t && after(x, t[0]);
      }
      AscendingIsUnique(after, s[1..], t[1..]);
    }
  }

  /** Sorting forgets the order the elements came in, and nothing else. */
  lemma OrderedIsCanonical<T(!new)>(after: (T, T) -> bool, s: seq<T>, t: seq<T>)
    requires StrictOrder(after) && Distinct(after, s) && Distinct(after, t)
    ensures Ordered(after, s) == Ordered(after, t) <==> forall x :: x in s <==> x in t
  {
    OrderedSorts(after, s);
    OrderedSorts(after, t);
    if forall x :: x in s <==> x in t {
      AscendingIsUnique(after, Ordered(after, s), Ordered(after, t));
    }
  }

  function Pick<T>(items: seq<T>, idx: seq<nat>): (r: seq<T>)
    requires forall k :: 0 <= k < |idx| ==> idx[k] < |items|
    ensures |r| == |idx| && forall k :: 0 <= k < |r| ==> r[k] == items[idx[k]]
  {
    seq(|idx|, k requires 0 <= k < |idx| => items[idx[k]])
  }

  /** The insertion once `item` has passed every element from p on. */
  function Passing<T>(after: (T, T) -> bool, s: seq<T>, item: T, p: nat): seq<T>
    requires p <= |s|
  {
    InsertRight(after, s[..p], item) + s[p..]
  }

  lemma PassingStarts<T>(after: (T, T) -> bool, s: seq<T>, item: T)
    ensures Passing(after, s, item, |s|) == InsertRight(after, s, item)
  {
    assert s[..|s|] == s;
  }

  lemma PassingSkips<T>(after: (T, T) -> bool, s: seq<T>, item: T, p: nat)
    requires 0 < p <= |s| && after(s[p - 1], item)
    ensures Passing(after, s, item, p) == Passing(after, s, item, p - 1)
  {
    assert s[..p][..p - 1] == s[..p - 1];
    assert s[p - 1..] == [s[p - 1]] + s[p..];
    assert InsertRight(after, s[..p], item) == InsertRight(after, s[..p - 1], item) + [s[p - 1]];
  }

  lemma PassingStops<T>(after: (T, T) -> bool, s: seq<T>, item: T, p: nat)
    requires p <= |s| && (p > 0 ==> !after(s[p - 1], item))
    ensures Passing(after, s, item, p) == s[..p] + [item] + s[p..]
  {
  }

  lemma PickSplits<T>(items: seq<T>, idx: seq<nat>, s: seq<T>, p: nat)
    requires p <= |s| && |idx| == |s| + 1 && forall k :: 0 <= k < |idx| ==> idx[k] < |items|
    requires forall k :: 0 <= k < p ==> items[idx[k]] == s[k]
    requires forall k :: p < k < |idx| ==> items[idx[k]] == s[k - 1]
    ensures Pick(items, idx) == s[..p] + [items[idx[p]]] + s[p..]
  {
  }

  /** The while loop of the insertion sort: moves indices[i] into the sorted prefix. */
  method InsertIndex<T>(after: (T, T) -> bool, items: seq<T>, indices: array<nat>, i: nat)
    requires i < indices.Length && i < |items| && forall k :: 0 <= k <= i ==> indices[k] < |items|
    modifies indices
    ensures forall k :: 0 <= k <= i ==> indices[k] < |items|
    ensures Pick(items, indices[..i + 1]) == InsertRight(after, Pick(items, old(indices[..i])), items[old(indices[i])])
    ensures forall k :: i < k < indices.Length ==> indices[k] == old(indices[k])
  {
    hide InsertRight, Passing, Pick;
    var value := indices[i];
    ghost var p := Pick(items, indices[..i]);
    var position := i;
    PassingStarts(after, p, items[value]);
    while position > 0 && after(items[indices[position - 1]], items[value])
      invariant 0 <= position <= i
      invariant forall k :: 0 <= k <= i ==> indices[k] < |items|
      invariant forall k :: 0 <= k < position ==> items[indices[k]] == p[k]
      invariant forall k :: position < k <= i ==> items[indices[k]] == p[k - 1]
      invariant forall k :: i < k < indices.Length ==> indices[k] == old(indices[k])
      invariant InsertRight(after, p, items[value]) == Passing(after, p, items[value], position)
    {
      PassingSkips(after, p, items[value], position);
      indices[position] := indices[position - 1];
      position := position - 1;
    }
    indices[position] := value;
    PassingStops(after, p, items[value], position);
    PickSplits(items, indices[..i + 1], p, position);
  }

  /** Sorts the indices 0..|items| so that they list the items in order. */
  method SortIndices<T>(after: (T, T) -> bool, items: seq<T>, indices: array<nat>)
    requires |items| <= indices.Length && forall k :: 0 <= k < |items| ==> indices[k] == k
    modifies indices
    ensures forall k :: 0 <= k < |items| ==> indices[k] < |items|
    ensures Pick(items, indices[..|items|]) == Ordered(after, items)
  {
    if |items| == 0 { return; }
    assert Pick(items, indices[..1]) == [items[0]];
    assert items[..1][..0] == [] && Ordered(after, items[..1]) == InsertRight(after, Ordered(after, items[..1][..0]), items[0]);
    for i := 1 to |items|
      invariant forall k :: 0 <= k < |items| ==> indices[k] < |items|
      invariant forall k :: i <= k < |items| ==> indices[k] == k
      invariant Pick(items, indices[..i]) == Ordered(after, items[..i])
    {
      InsertIndex(after, items, indices, i);
      assert items[..i + 1][..i] == items[..i];
    }
    assert items[..|items|] == items;
  }
}

/** Strings ordered by their characters, as strcmp and Python compare them. */
module Ordering {
  datatype Order = Less | Equal | Greater

  /** The sign of the first difference; a proper prefix is less. */
  function CompareText(a: string, b: string): Order {
    if a == "" then (if b == "" then Equal else Less)
    else if b == "" then Greater
    else if a[0] < b[0] then Less
    else if a[0] > b[0] then Greater
    else CompareText(a[1..], b[1..])
  }

  lemma {:induction false} TextOrder(a: string, b: string)
    ensures CompareText(a, b) == Equal <==> a == b
    ensures CompareText(a, b) == Less <==> CompareText(b, a) == Greater
    ensures CompareText(b, a) == Less <==> CompareText(a, b) == Greater
  {
    if a != "" && b != "" {
      TextOrder(a[1..], b[1..]);
      assert a == [a[0]] + a[1..] && b == [b[0]] + b[1..];
    }
  }

  lemma {:induction false} TextTransitive(a: string, b: string, c: string)
    requires CompareText(a, b) == Less && CompareText(b, c) == Less
    ensures CompareText(a, c) == Less
  {
    if a != "" && a[0] == b[0] == c[0] {
      TextTransitive(a[1..], b[1..], c[1..]);
    }
  }

  /** At the first place where they differ a has the smaller character, or a ends there. */
  predicate TextLess(a: string, b: string) {
    exists k :: 0 <= k <= |a| && k <= |b| && a[..k] == b[..k] && LessAt(a, b, k)
  }

  predicate LessAt(a: string, b: string, k: nat)
    requires k <= |a| && k <= |b|
  {
    (k == |a| && k < |b|) || (k < |a| && k < |b| && a[k] < b[k])
  }

  lemma {:induction false} CompareIsLexicographic(a: string, b: string)
    ensures CompareText(a, b) == Less <==> TextLess(a, b)
  {
    if a == "" || b == "" {
      if b != "" {
        assert LessAt(a, b, 0) && a[..0] == b[..0];
      }
    } else if a[0] != b[0] {
      if a[0] < b[0] {
        assert LessAt(a, b, 0) && a[..0] == b[..0];
      }
      forall k | 0 < k <= |a| && k <= |b|
        ensures a[..k] != b[..k]
      {
        assert a[..k][0] == a[0] && b[..k][0] == b[0];
      }
    } else {
      CompareIsLexicographic(a[1..], b[1..]);
      if TextLess(a[1..], b[1..]) {
        var k :| 0 <= k <= |a[1..]| && k <= |b[1..]| && a[1..][..k] == b[1..][..k] && LessAt(a[1..], b[1..], k);
        assert a[..k + 1] == [a[0]] + a[1..][..k] && b[..k + 1] == [b[0]] + b[1..][..k];
        assert LessAt(a, b, k + 1);
      }
      if TextLess(a, b) {
        var k :| 0 <= k <= |a| && k <= |b| && a[..k] == b[..k] && LessAt(a, b, k);
        assert k > 0 && a[1..][..k - 1] == a[..k][1..] && b[1..][..k - 1] == b[..k][1..];
        assert LessAt(a[1..], b[1..], k - 1);
      }
    }
  }
}
