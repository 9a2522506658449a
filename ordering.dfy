/**
  Keeping the working list ordered by `ComesBefore` (`huff_helper` in huffman.py): a recursive
  adjacent-swap sort, proved to terminate and to agree with a reference insertion sort.
*/
module Ordering {
  import opened Nodes

  /** Every adjacent pair is in `ComesBefore` order. */
  predicate Ordered(s: seq<HuffmanNode>) {
    forall i :: 0 <= i < |s| - 1 ==> ComesBefore(s[i], s[i + 1])
  }

  /** No two entries share a character id, so `ComesBefore` orders any two of them. */
  predicate DistinctIds(s: seq<HuffmanNode>) {
    forall i, j :: 0 <= i < j < |s| ==> s[i].charAscii != s[j].charAscii
  }

  /** Number of entries of `s` that `x` does not come before. */
  function CountAfter(x: HuffmanNode, s: seq<HuffmanNode>): nat {
    if s == [] then 0 else (if ComesBefore(x, s[0]) then 0 else 1) + CountAfter(x, s[1..])
  }

  /** Number of pairs `i < j` with `s[i]` not coming before `s[j]`. */
  function Inversions(s: seq<HuffmanNode>): nat {
    if s == [] then 0 else CountAfter(s[0], s[1..]) + Inversions(s[1..])
  }

  /** `s` with the entries at `k` and `k + 1` exchanged. */
  function Swapped(s: seq<HuffmanNode>, k: nat): (r: seq<HuffmanNode>)
    requires k + 1 < |s|
    ensures |r| == |s| && r[k] == s[k + 1] && r[k + 1] == s[k]
    ensures forall i :: 0 <= i < |s| && i != k && i != k + 1 ==> r[i] == s[i]
    ensures multiset(r) == multiset(s)
  {
    var r := s[..k] + [s[k + 1], s[k]] + s[k + 2..];
    assert s == s[..k] + [s[k], s[k + 1]] + s[k + 2..];
    r
  }

  lemma {:induction false} CountAfterSwapped(x: HuffmanNode, s: seq<HuffmanNode>, k: nat)
    requires k + 1 < |s|
    ensures CountAfter(x, Swapped(s, k)) == CountAfter(x, s)
  {
    var r := Swapped(s, k);
    if k == 0 {
      assert r[2..] == s[2..];
      assert r[1..][1..] == r[2..] && s[1..][1..] == s[2..];
    } else {
      assert r[1..] == Swapped(s[1..], k - 1);
      CountAfterSwapped(x, s[1..], k - 1);
    }
  }

  /** Exchanging an adjacent pair that is out of order removes exactly one inversion. */
  lemma {:induction false} SwapRemovesInversion(s: seq<HuffmanNode>, k: nat)
    requires k + 1 < |s|
    requires !ComesBefore(s[k], s[k + 1]) && s[k].charAscii != s[k + 1].charAscii
    ensures Inversions(Swapped(s, k)) + 1 == Inversions(s)
  {
    var r := Swapped(s, k);
    if k == 0 {
      var a, b, t := s[0], s[1], s[2..];
      assert s[1..] == [b] + t && r[1..] == [a] + t;
      assert ([b] + t)[1..] == t && ([a] + t)[1..] == t;
      assert CountAfter(a, s[1..]) == 1 + CountAfter(a, t);
      assert CountAfter(b, r[1..]) == CountAfter(b, t);
    } else {
      assert r[1..] == Swapped(s[1..], k - 1);
      CountAfterSwapped(s[0], s[1..], k - 1);
      SwapRemovesInversion(s[1..], k - 1);
    }
  }

  /** An exchange keeps the ids distinct, and when the pair was out of order it removes an inversion. */
  lemma SwapKeepsDistinct(s: seq<HuffmanNode>, k: nat)
    requires k + 1 < |s| && DistinctIds(s)
    ensures DistinctIds(Swapped(s, k))
    ensures !ComesBefore(s[k], s[k + 1]) ==> Inversions(Swapped(s, k)) < Inversions(s)
  {
    var r := Swapped(s, k);
    forall i, j | 0 <= i < j < |r| ensures r[i].charAscii != r[j].charAscii {
      var i' := if i == k then k + 1 else if i == k + 1 then k else i;
      var j' := if j == k then k + 1 else if j == k + 1 then k else j;
      assert r[i] == s[i'] && r[j] == s[j'];
      if i' < j' {
        assert s[i'].charAscii != s[j'].charAscii;
      } else {
        assert s[j'].charAscii != s[i'].charAscii;
      }
    }
    if !ComesBefore(s[k], s[k + 1]) {
      SwapRemovesInversion(s, k);
    }
  }

  /** In an ordered list the first entry comes before every later one. */
  lemma {:induction false} OrderedHeadIsLeast(s: seq<HuffmanNode>)
    requires Ordered(s)
    ensures forall j :: 0 < j < |s| ==> ComesBefore(s[0], s[j])
  {
    if |s| > 2 {
      OrderedHeadIsLeast(s[1..]);
      forall j | 1 < j < |s| ensures ComesBefore(s[0], s[j]) {
        assert ComesBefore(s[1], s[j]) by { assert s[1..][j - 1] == s[j]; }
        ComesBeforeIsStrictTotalOrder(s[0], s[1], s[j]);
      }
    }
  }

  /** An ordered list has no inversions. */
  lemma {:induction false} OrderedHasNoInversions(s: seq<HuffmanNode>)
    requires Ordered(s)
    ensures Inversions(s) == 0
  {
    if s != [] {
      OrderedHeadIsLeast(s);
      NoneAfter(s[0], s[1..]);
      OrderedHasNoInversions(s[1..]);
    }
  }

  lemma {:induction false} NoneAfter(x: HuffmanNode, s: seq<HuffmanNode>)
    requires forall j :: 0 <= j < |s| ==> ComesBefore(x, s[j])
    ensures CountAfter(x, s) == 0
  {
    if s != [] {
      NoneAfter(x, s[1..]);
    }
  }

  /** The pairs at positions `0 .. x` are in `ComesBefore` order. */
  predicate OrderedBelow(s: seq<HuffmanNode>, x: nat) {
    forall i :: 0 <= i < x && i + 1 < |s| ==> ComesBefore(s[i], s[i + 1])
  }

  /** A scan that has passed every pair has found the list ordered. */
  lemma OrderedBelowEnd(s: seq<HuffmanNode>, x: nat)
    requires OrderedBelow(s, x) && x + 1 >= |s|
    ensures Ordered(s)
  {
  }

  /** After a restart the whole list is ordered: the scan may go on, and no inversion is left. */
  lemma RestartDone(s: seq<HuffmanNode>, x: nat)
    requires Ordered(s)
    ensures OrderedBelow(s, x + 1) && Inversions(s) == 0
  {
    OrderedHasNoInversions(s);
  }

  /**
    `huff_helper`: scan adjacent pairs; at the first pair out of order, swap it and start over
    by recursion, then finish the scan. Terminates because each swap removes an inversion.
  */
  method HuffHelper(a: array<HuffmanNode>)
    requires DistinctIds(a[..])
    modifies a
    ensures Ordered(a[..]) && DistinctIds(a[..])
    ensures multiset(a[..]) == multiset(old(a[..]))
    decreases Inversions(a[..])
  {
    var x := 0;
    while x < a.Length - 1
      invariant 0 <= x <= if a.Length == 0 then 0 else a.Length - 1
      invariant OrderedBelow(a[..], x)
      invariant DistinctIds(a[..])
      invariant multiset(a[..]) == multiset(old(a[..]))
      invariant Inversions(a[..]) <= Inversions(old(a[..]))
    {
      if !ComesBefore(a[x], a[x + 1]) {
        ghost var before := a[..];
        SwapKeepsDistinct(before, x);
        a[x], a[x + 1] := a[x + 1], a[x];
        assert a[..] == Swapped(before, x);
        HuffHelper(a);
        RestartDone(a[..], x);
      }
      x := x + 1;
    }
    OrderedBelowEnd(a[..], x);
  }

  /** Reference definition: insert `x` before the first entry it comes before. */
  function Insert(x: HuffmanNode, s: seq<HuffmanNode>): (r: seq<HuffmanNode>)
    ensures |r| == |s| + 1
    ensures multiset(r) == multiset(s) + multiset{x}
    ensures r[0] == x || (s != [] && r[0] == s[0])
    ensures ListBag(r) == IdBag(x) + ListBag(s)
    ensures ListFreq(r) == x.freq + ListFreq(s)
  {
    if s == [] then [x]
    else if ComesBefore(x, s[0]) then [x] + s
    else
      var r := [s[0]] + Insert(x, s[1..]);
      assert r[1..] == Insert(x, s[1..]);
      assert s == [s[0]] + s[1..];
      r
  }

  /** Reference definition: insertion sort by `ComesBefore`. */
  function SortNodes(s: seq<HuffmanNode>): (r: seq<HuffmanNode>)
    ensures |r| == |s|
    ensures multiset(r) == multiset(s)
    ensures ListBag(r) == ListBag(s)
    ensures ListFreq(r) == ListFreq(s)
  {
    if s == [] then []
    else
      var r := Insert(s[0], SortNodes(s[1..]));
      assert s == [s[0]] + s[1..];
      r
  }

  lemma {:induction false} InsertOrdered(x: HuffmanNode, s: seq<HuffmanNode>)
    requires Ordered(s)
    requires forall y :: y in s ==> y.charAscii != x.charAscii
    ensures Ordered(Insert(x, s))
  {
    if s != [] && !ComesBefore(x, s[0]) {
      InsertOrdered(x, s[1..]);
      var r := Insert(x, s);
      assert r[1..] == Insert(x, s[1..]);
      ComesBeforeIsStrictTotalOrder(x, s[0], x);
      if |s| > 1 {
        assert r[1] == x || r[1] == s[1];
      }
    }
  }

  /** The reference sort orders any list whose ids are distinct. */
  lemma {:induction false} SortNodesOrdered(s: seq<HuffmanNode>)
    requires DistinctIds(s)
    ensures Ordered(SortNodes(s))
  {
    if s != [] {
      assert DistinctIds(s[1..]);
      SortNodesOrdered(s[1..]);
      forall y | y in SortNodes(s[1..]) ensures y.charAscii != s[0].charAscii {
        assert y in multiset(SortNodes(s[1..]));
        var j :| 0 <= j < |s[1..]| && s[1..][j] == y;
        assert s[j + 1] == y;
      }
      InsertOrdered(s[0], SortNodes(s[1..]));
    }
  }

  /** Two ordered lists with the same entries are equal: the order leaves no choice. */
  lemma {:induction false} OrderedIsUnique(a: seq<HuffmanNode>, b: seq<HuffmanNode>)
    requires Ordered(a) && Ordered(b)
    requires multiset(a) == multiset(b)
    ensures a == b
  {
    if a != [] {
      assert |b| == |a| by { assert |multiset(b)| == |multiset(a)|; }
      OrderedHeadsAgree(a, b);
      SplitHead(a);
      SplitHead(b);
      assert Ordered(a[1..]) && Ordered(b[1..]);
      OrderedIsUnique(a[1..], b[1..]);
      assert a == [a[0]] + a[1..] && b == [b[0]] + b[1..];
    }
  }

  /** The entries of a non-empty list are its head and the entries of its tail. */
  lemma SplitHead(s: seq<HuffmanNode>)
    requires s != []
    ensures multiset(s[1..]) == multiset(s) - multiset{s[0]}
  {
    assert s == [s[0]] + s[1..];
    assert multiset(s) == multiset{s[0]} + multiset(s[1..]);
  }

  /** Two ordered lists with the same entries start with the same entry: the least one. */
  lemma OrderedHeadsAgree(a: seq<HuffmanNode>, b: seq<HuffmanNode>)
    requires Ordered(a) && Ordered(b)
    requires multiset(a) == multiset(b) && a != []
    ensures b != [] && a[0] == b[0]
  {
    assert a[0] in multiset(b);
    assert b != [] && b[0] in multiset(a);
    var i :| 0 <= i < |a| && a[i] == b[0];
    var j :| 0 <= j < |b| && b[j] == a[0];
    if a[0] != b[0] {
      assert i > 0 && j > 0;
      OrderedHeadIsLeast(a);
      OrderedHeadIsLeast(b);
      ComesBeforeIsStrictTotalOrder(a[0], b[0], a[0]);
      assert false;
    }
  }

  /**
    Runs `huff_helper` on a fresh copy of the working list; the result is the reference
    sort of the list, so it is ordered and a permutation of it.
  */
  method SortWorkingList(s: seq<HuffmanNode>) returns (r: seq<HuffmanNode>)
    requires DistinctIds(s)
    ensures r == SortNodes(s)
    ensures Ordered(r) && multiset(r) == multiset(s)
  {
    var a := new HuffmanNode[|s|](i requires 0 <= i < |s| => s[i]);
    assert a[..] == s;
    HuffHelper(a);
    r := a[..];
    SortNodesOrdered(s);
    OrderedIsUnique(r, SortNodes(s));
  }
}
