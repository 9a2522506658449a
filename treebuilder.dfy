/**
  Building the canonical Huffman tree (`create_huff_tree` in huffman.py): one leaf per
  nonzero count, then repeatedly merge the first two entries of the ordered working list.
*/
module TreeBuilder {
  import opened Nodes
  import opened Ordering
  import opened Frequency

  /** The symbols with a nonzero count, each once. */
  function SymbolBag(f: seq<nat>): multiset<nat> {
    if f == [] then multiset{}
    else
      var n := |f| - 1;
      SymbolBag(f[..n]) + if f[n] != 0 then multiset{n as nat} else multiset{}
  }

  /** Symbol `c` is in the bag once when its count is nonzero, and otherwise not at all. */
  lemma {:induction false} SymbolBagCount(f: seq<nat>, c: nat)
    ensures SymbolBag(f)[c] == if c < |f| && f[c] != 0 then 1 else 0
  {
    if f != [] {
      var n := |f| - 1;
      SymbolBagCount(f[..n], c);
    }
  }

  lemma SymbolBagIsUnique(f: seq<nat>)
    ensures UniqueIds(SymbolBag(f))
  {
    forall c ensures SymbolBag(f)[c] <= 1 {
      SymbolBagCount(f, c);
    }
  }

  /** One leaf per `(symbol, count)` entry, in the same order. */
  function LeavesOf(entries: seq<(nat, nat)>): (r: seq<HuffmanNode>)
    ensures |r| == |entries|
    ensures forall k :: 0 <= k < |r| ==> r[k] == Leaf(entries[k].0, entries[k].1)
  {
    seq(|entries|, k requires 0 <= k < |entries| => Leaf(entries[k].0, entries[k].1))
  }

  /** The working list before the first merge: a leaf per nonzero count, by ascending symbol. */
  function InitialLeaves(f: seq<nat>): seq<HuffmanNode> {
    LeavesOf(NonzeroEntries(f))
  }

  /** Every tree of the list is well formed and its leaves agree with `f`. */
  predicate AllValid(s: seq<HuffmanNode>, f: seq<nat>) {
    forall t :: t in s ==> WellFormed(t) && Agrees(t, f)
  }

  /** The initial leaves are leaves that agree with `f`, in ascending symbol order. */
  lemma InitialLeavesAreLeaves(f: seq<nat>)
    ensures forall t :: t in InitialLeaves(f) ==> IsLeaf(t) && t.charAscii < |f| && f[t.charAscii] == t.freq != 0
    ensures AllValid(InitialLeaves(f), f)
    ensures DistinctIds(InitialLeaves(f))
  {
    var leaves := InitialLeaves(f);
    var entries := NonzeroEntries(f);
    NonzeroEntriesSpec(f);
    forall t | t in leaves ensures IsLeaf(t) && t.charAscii < |f| && f[t.charAscii] == t.freq != 0 {
      var k :| 0 <= k < |leaves| && leaves[k] == t;
      assert t == Leaf(entries[k].0, entries[k].1);
    }
  }

  /** Extending the table by one slot appends that slot's leaf when its count is nonzero. */
  lemma InitialLeavesSnoc(f: seq<nat>, n: nat)
    requires n < |f|
    ensures InitialLeaves(f[..n + 1]) == InitialLeaves(f[..n]) + (if f[n] != 0 then [Leaf(n, f[n])] else [])
  {
    NonzeroEntriesSnoc(f, n);
  }

  /** The initial leaves carry exactly the symbols with nonzero count, once each. */
  lemma {:induction false} InitialLeavesBag(f: seq<nat>)
    ensures ListBag(InitialLeaves(f)) == SymbolBag(f)
  {
    if f != [] {
      var n: nat := |f| - 1;
      assert f == f[..n + 1];
      InitialLeavesSnoc(f, n);
      InitialLeavesBag(f[..n]);
      ListConcat(InitialLeaves(f[..n]), if f[n] != 0 then [Leaf(n, f[n])] else []);
    }
  }

  /** The initial leaves weigh `Sum(f)` together. */
  lemma {:induction false} InitialLeavesFreq(f: seq<nat>)
    ensures ListFreq(InitialLeaves(f)) == Sum(f)
  {
    if f != [] {
      var n: nat := |f| - 1;
      assert f == f[..n + 1];
      InitialLeavesSnoc(f, n);
      InitialLeavesFreq(f[..n]);
      ListConcat(InitialLeaves(f[..n]), if f[n] != 0 then [Leaf(n, f[n])] else []);
    }
  }

  /** The working list after one merge: the first two entries replaced by their merge at the end. */
  function MergeFirstTwo(lis: seq<HuffmanNode>): (r: seq<HuffmanNode>)
    requires |lis| >= 2
    ensures |r| == |lis| - 1
    ensures ListBag(r) == ListBag(lis) && ListFreq(r) == ListFreq(lis)
  {
    var merged := Combine(lis[0], lis[1]);
    ListConcat(lis[2..], [merged]);
    assert lis[1..][1..] == lis[2..];
    lis[2..] + [merged]
  }

  /**
    In the ordered working list the first two entries are the two least trees: each comes
    before every later entry, and the first comes before the second.
  */
  lemma MergesTwoLeast(lis: seq<HuffmanNode>)
    requires |lis| >= 2 && Ordered(lis)
    ensures ComesBefore(lis[0], lis[1])
    ensures forall j :: 1 < j < |lis| ==> ComesBefore(lis[0], lis[j]) && ComesBefore(lis[1], lis[j])
  {
    OrderedHeadIsLeast(lis);
    OrderedHeadIsLeast(lis[1..]);
    assert forall j :: 1 < j < |lis| ==> lis[1..][j - 1] == lis[j];
  }

  /** Appending the merged node and dropping the first two entries is `MergeFirstTwo`. */
  lemma AppendThenDrop(lis: seq<HuffmanNode>, merged: HuffmanNode)
    requires |lis| >= 2 && merged == Combine(lis[0], lis[1])
    ensures (lis + [merged])[2..] == MergeFirstTwo(lis)
  {
  }

  lemma MergeKeepsValid(lis: seq<HuffmanNode>, f: seq<nat>)
    requires |lis| >= 2 && AllValid(lis, f)
    ensures AllValid(MergeFirstTwo(lis), f)
    ensures AllValid(SortNodes(MergeFirstTwo(lis)), f)
  {
    CombineKeepsInvariants(lis[0], lis[1], f);
    var sorted := SortNodes(MergeFirstTwo(lis));
    forall t | t in sorted ensures WellFormed(t) && Agrees(t, f) {
      assert t in multiset(sorted);
    }
  }

  lemma SortKeepsValid(lis: seq<HuffmanNode>, f: seq<nat>)
    requires AllValid(lis, f)
    ensures AllValid(SortNodes(lis), f)
  {
    var sorted := SortNodes(lis);
    forall t | t in sorted ensures WellFormed(t) && Agrees(t, f) {
      assert t in multiset(sorted);
    }
  }

  /** Trees sharing no leaf id have distinct ids, so the working list can be ordered. */
  lemma DistinctFromUniqueBag(s: seq<HuffmanNode>, f: seq<nat>)
    requires AllValid(s, f) && UniqueIds(ListBag(s))
    ensures DistinctIds(s)
  {
    forall i, j | 0 <= i < j < |s| ensures s[i].charAscii != s[j].charAscii {
      DistinctIdsFromBag(s, i, j);
    }
  }

  /**
    Reference definition of the merge loop: merge the first two entries, put the new node at
    the end, reorder, and go on until one tree is left.
  */
  function Build(lis: seq<HuffmanNode>): HuffmanNode
    requires |lis| >= 1
    decreases |lis|
  {
    if |lis| == 1 then lis[0]
    else Build(SortNodes(MergeFirstTwo(lis)))
  }

  /** The tree `create_huff_tree` returns for the count table `f`; `Empty` stands for `None`. */
  function HuffTree(f: seq<nat>): HTree {
    if Sum(f) == 0 then Empty
    else
      SumIsZeroWithoutEntries(f);
      Build(SortNodes(InitialLeaves(f)))
  }

  /** Every merge step keeps the trees well formed and their leaves and total weight unchanged. */
  lemma {:induction false} BuildKeepsInvariants(lis: seq<HuffmanNode>, f: seq<nat>)
    requires |lis| >= 1 && AllValid(lis, f)
    decreases |lis|
    ensures WellFormed(Build(lis)) && Agrees(Build(lis), f)
    ensures IdBag(Build(lis)) == ListBag(lis)
    ensures Build(lis).freq == ListFreq(lis)
  {
    if |lis| == 1 {
      assert lis[1..] == [];
      assert lis[0] in lis;
    } else {
      MergeKeepsValid(lis, f);
      BuildKeepsInvariants(SortNodes(MergeFirstTwo(lis)), f);
    }
  }

  /**
    `create_huff_tree` returns `None` exactly when every count is zero. Otherwise the tree is
    well formed (two children per internal node, weights add up, ids are minima), its leaves
    are the symbols with nonzero count, once each and carrying that count, the root weighs
    the total count, and it is a bare leaf exactly when one symbol occurs.
  */
  lemma HuffTreeSpec(f: seq<nat>)
    ensures HuffTree(f) == Empty <==> forall i :: 0 <= i < |f| ==> f[i] == 0
    ensures HuffTree(f) != Empty ==>
      && WellFormed(HuffTree(f))
      && Agrees(HuffTree(f), f)
      && IdBag(HuffTree(f)) == SymbolBag(f)
      && HuffTree(f).freq == Sum(f)
      && (IsLeaf(HuffTree(f)) <==> |SymbolBag(f)| == 1)
  {
    SumIsZero(f);
    if Sum(f) != 0 {
      SumIsZeroWithoutEntries(f);
      InitialLeavesAreLeaves(f);
      InitialLeavesBag(f);
      InitialLeavesFreq(f);
      SortKeepsValid(InitialLeaves(f), f);
      BuildKeepsInvariants(SortNodes(InitialLeaves(f)), f);
      WellFormedIsFull(HuffTree(f));
      LeafCount(HuffTree(f));
    }
  }

  /** The one-symbol case: the tree is the leaf of that symbol. */
  lemma SingleSymbolTree(f: seq<nat>, c: nat)
    requires c < |f| && f[c] != 0
    requires forall i :: 0 <= i < |f| && i != c ==> f[i] == 0
    ensures HuffTree(f) == Leaf(c, f[c])
  {
    forall x ensures SymbolBag(f)[x] == multiset{c}[x] {
      SymbolBagCount(f, x);
    }
    assert SymbolBag(f) == multiset{c};
    SumIsZero(f);
    HuffTreeSpec(f);
    assert c in IdBag(HuffTree(f));
  }

  /**
    `create_huff_tree`: build the leaf list, order it with `huff_helper`, then merge the first
    two entries until one tree is left. The library sort by frequency that precedes each call
    of `huff_helper` is left out: `huff_helper` alone produces the one ordering there is.
  */
  method CreateHuffTree(charFreq: seq<nat>) returns (root: HTree)
    ensures root == HuffTree(charFreq)
  {
    if Sum(charFreq) == 0 {
      return Empty;
    }
    var hufLis: seq<HuffmanNode> := [];
    for i := 0 to |charFreq|
      invariant hufLis == InitialLeaves(charFreq[..i])
    {
      InitialLeavesSnoc(charFreq, i);
      if charFreq[i] != 0 {
        hufLis := hufLis + [Leaf(i, charFreq[i])];
      }
    }
    assert charFreq[..|charFreq|] == charFreq;
    InitialLeavesAreLeaves(charFreq);
    InitialLeavesBag(charFreq);
    SymbolBagIsUnique(charFreq);
    SumIsZeroWithoutEntries(charFreq);
    hufLis := SortWorkingList(hufLis);
    SortKeepsValid(InitialLeaves(charFreq), charFreq);
    InitialLeavesFreq(charFreq);
    while |hufLis| >= 2
      invariant |hufLis| >= 1
      invariant Build(hufLis) == HuffTree(charFreq)
      invariant AllValid(hufLis, charFreq)
      invariant ListBag(hufLis) == SymbolBag(charFreq)
      invariant ListFreq(hufLis) == Sum(charFreq)
      invariant Ordered(hufLis)
      decreases |hufLis|
    {
      MergesTwoLeast(hufLis);
      var newNode := Combine(hufLis[0], hufLis[1]);
      ghost var before := hufLis;
      MergeKeepsValid(hufLis, charFreq);
      hufLis := hufLis + [newNode];
      hufLis := hufLis[2..];
      AppendThenDrop(before, newNode);
      DistinctFromUniqueBag(hufLis, charFreq);
      hufLis := SortWorkingList(hufLis);
    }
    root := hufLis[0];
  }
}
