/** Option, for the model's error paths (a decoder that meets a malformed bit string). */
module Wrappers {
  datatype Option<+T> = None | Some(value: T)
}

/**
  Huffman tree nodes, the order used to pick merge candidates, and the merge itself
  (`HuffmanNode`, `comes_before` and `combine` in huffman.py).
*/
module Nodes {

  /** An optional tree: `Empty` is Python's `None`; a node with two `Empty` children is a leaf. */
  datatype HTree = Empty | Node(charAscii: nat, freq: nat, left: HTree, right: HTree)

  /** A tree that is present (the type of every element of the working list). */
  type HuffmanNode = t: HTree | t.Node? witness Node(0, 0, Empty, Empty)

  predicate IsLeaf(t: HTree) {
    t.Node? && t.left.Empty? && t.right.Empty?
  }

  function Leaf(c: nat, f: nat): (r: HuffmanNode)
    ensures IsLeaf(r) && r.charAscii == c && r.freq == f
  {
    Node(c, f, Empty, Empty)
  }

  function Min(x: nat, y: nat): nat {
    if x < y then x else y
  }

  /** `a` precedes `b`: lower frequency first, ties broken by the lower character id. */
  predicate ComesBefore(a: HuffmanNode, b: HuffmanNode) {
    if a.freq < b.freq then true
    else if a.freq == b.freq then a.charAscii < b.charAscii
    else false
  }

  /**
    For byte symbols the order is the numeric order of the single key `freq * 256 + charAscii`,
    that is, the lexicographic order of the pairs `(freq, charAscii)`.
  */
  lemma ComesBeforeIsLexicographic(a: HuffmanNode, b: HuffmanNode)
    requires a.charAscii < 256 && b.charAscii < 256
    ensures ComesBefore(a, b) <==> a.freq * 256 + a.charAscii < b.freq * 256 + b.charAscii
  {
  }

  /** `ComesBefore` is a strict order, total on nodes whose keys differ. */
  lemma ComesBeforeIsStrictTotalOrder(a: HuffmanNode, b: HuffmanNode, c: HuffmanNode)
    ensures !ComesBefore(a, a)
    ensures ComesBefore(a, b) ==> !ComesBefore(b, a)
    ensures ComesBefore(a, b) && ComesBefore(b, c) ==> ComesBefore(a, c)
    ensures (a.freq, a.charAscii) != (b.freq, b.charAscii) ==> (ComesBefore(a, b) <==> !ComesBefore(b, a))
  {
  }

  /**
    A new internal node over `a` and `b`: the frequencies add up, the id is the smaller id,
    and the node that comes first goes on the left. When the keys are equal `b` goes left.
  */
  function Combine(a: HuffmanNode, b: HuffmanNode): (r: HuffmanNode)
    ensures r.freq == a.freq + b.freq
    ensures r.charAscii == Min(a.charAscii, b.charAscii)
    ensures ComesBefore(a, b) ==> r.left == a && r.right == b
    ensures !ComesBefore(a, b) ==> r.left == b && r.right == a
  {
    if a.freq < b.freq then
      if a.charAscii < b.charAscii then Node(a.charAscii, a.freq + b.freq, a, b)
      else Node(b.charAscii, a.freq + b.freq, a, b)
    else if a.freq == b.freq then
      if a.charAscii < b.charAscii then Node(a.charAscii, a.freq + b.freq, a, b)
      else Node(b.charAscii, a.freq + b.freq, b, a)
    else
      if a.charAscii < b.charAscii then Node(a.charAscii, a.freq + b.freq, b, a)
      else Node(b.charAscii, a.freq + b.freq, b, a)
  }

  /** With different keys, the merge does not depend on the order of its arguments. */
  lemma CombineCommutes(a: HuffmanNode, b: HuffmanNode)
    requires (a.freq, a.charAscii) != (b.freq, b.charAscii)
    ensures Combine(a, b) == Combine(b, a)
  {
  }

  /** Every node is a leaf or has two present children (the shape `create_code_helper` walks). */
  predicate Full(t: HTree) {
    t.Node? && (IsLeaf(t) || (t.left.Node? && t.right.Node? && Full(t.left) && Full(t.right)))
  }

  /**
    A tree as the builder makes it: full, every internal node weighs the sum of its
    children and carries the smaller of their ids.
  */
  predicate WellFormed(t: HTree) {
    t.Node? &&
    (IsLeaf(t) ||
      (t.left.Node? && t.right.Node? && WellFormed(t.left) && WellFormed(t.right) &&
       t.freq == t.left.freq + t.right.freq &&
       t.charAscii == Min(t.left.charAscii, t.right.charAscii)))
  }

  /** The ids of the leaves, with multiplicity. */
  function IdBag(t: HTree): multiset<nat> {
    match t
    case Empty => multiset{}
    case Node(c, _, l, r) => if IsLeaf(t) then multiset{c} else IdBag(l) + IdBag(r)
  }

  /** Every leaf of `t` is symbol `c` with frequency `f[c]`. */
  predicate Agrees(t: HTree, f: seq<nat>) {
    match t
    case Empty => true
    case Node(c, w, l, r) => if IsLeaf(t) then c < |f| && f[c] == w else Agrees(l, f) && Agrees(r, f)
  }

  /** No symbol appears at two leaves. */
  ghost predicate UniqueIds(m: multiset<nat>) {
    forall c :: m[c] <= 1
  }

  lemma UniqueIdsOfPart(m: multiset<nat>, n: multiset<nat>)
    requires UniqueIds(m + n)
    ensures UniqueIds(m) && UniqueIds(n)
  {
    forall c ensures m[c] <= 1 && n[c] <= 1 {
      assert (m + n)[c] == m[c] + n[c];
    }
  }

  lemma {:induction false} WellFormedIsFull(t: HTree)
    requires WellFormed(t)
    ensures Full(t)
  {
    if !IsLeaf(t) {
      WellFormedIsFull(t.left);
      WellFormedIsFull(t.right);
    }
  }

  /** The id of a well-formed node is the least id among its leaves. */
  lemma {:induction false} IdIsLeastLeaf(t: HTree)
    requires WellFormed(t)
    ensures t.charAscii in IdBag(t)
    ensures forall c :: c in IdBag(t) ==> t.charAscii <= c
  {
    if !IsLeaf(t) {
      IdIsLeastLeaf(t.left);
      IdIsLeastLeaf(t.right);
    }
  }

  /** A full tree has at least one leaf, and it is a leaf exactly when it has one. */
  lemma {:induction false} LeafCount(t: HTree)
    requires Full(t)
    ensures |IdBag(t)| >= 1
    ensures IsLeaf(t) <==> |IdBag(t)| == 1
  {
    if !IsLeaf(t) {
      LeafCount(t.left);
      LeafCount(t.right);
    }
  }

  /** Merging keeps the builder's invariants and unites the leaves of both sides. */
  lemma CombineKeepsInvariants(a: HuffmanNode, b: HuffmanNode, f: seq<nat>)
    ensures WellFormed(a) && WellFormed(b) ==> WellFormed(Combine(a, b))
    ensures Agrees(a, f) && Agrees(b, f) ==> Agrees(Combine(a, b), f)
    ensures IdBag(Combine(a, b)) == IdBag(a) + IdBag(b)
  {
  }

  /** Ids of the leaves of a list of trees. */
  function ListBag(s: seq<HuffmanNode>): multiset<nat> {
    if s == [] then multiset{} else IdBag(s[0]) + ListBag(s[1..])
  }

  /** Total frequency of a list of trees. */
  function ListFreq(s: seq<HuffmanNode>): nat {
    if s == [] then 0 else s[0].freq + ListFreq(s[1..])
  }

  lemma {:induction false} ListConcat(s: seq<HuffmanNode>, t: seq<HuffmanNode>)
    ensures ListBag(s + t) == ListBag(s) + ListBag(t)
    ensures ListFreq(s + t) == ListFreq(s) + ListFreq(t)
  {
    if s != [] {
      assert (s + t)[1..] == s[1..] + t;
      ListConcat(s[1..], t);
    } else {
      assert s + t == t;
    }
  }

  lemma {:induction false} MemberBag(s: seq<HuffmanNode>, i: nat)
    requires i < |s|
    ensures IdBag(s[i]) <= ListBag(s)
  {
    if i > 0 {
      MemberBag(s[1..], i - 1);
    }
  }

  /** Trees with no shared leaf ids have distinct node ids. */
  lemma {:induction false} DistinctIdsFromBag(s: seq<HuffmanNode>, i: nat, j: nat)
    requires forall t :: t in s ==> WellFormed(t)
    requires UniqueIds(ListBag(s))
    requires i < j < |s|
    ensures s[i].charAscii != s[j].charAscii
  {
    var rest := s[1..];
    assert ListBag(s) == IdBag(s[0]) + ListBag(rest);
    if i > 0 {
      UniqueIdsOfPart(IdBag(s[0]), ListBag(rest));
      assert forall t :: t in rest ==> t in s;
      assert rest[i - 1] == s[i] && rest[j - 1] == s[j];
      DistinctIdsFromBag(rest, i - 1, j - 1);
    } else {
      HeadIdNotInRest(s, j);
    }
  }

  /** The id of the first tree is not the id of a later tree, as no leaf id repeats. */
  lemma HeadIdNotInRest(s: seq<HuffmanNode>, j: nat)
    requires forall t :: t in s ==> WellFormed(t)
    requires UniqueIds(ListBag(s))
    requires 0 < j < |s|
    ensures s[0].charAscii != s[j].charAscii
  {
    var rest := s[1..];
    var c, d := s[0].charAscii, s[j].charAscii;
    assert ListBag(s) == IdBag(s[0]) + ListBag(rest);
    assert c in IdBag(s[0]) by { IdIsLeastLeaf(s[0]); }
    assert d in ListBag(rest) by {
      IdIsLeastLeaf(s[j]);
      assert rest[j - 1] == s[j];
      MemberBag(rest, j - 1);
    }
    assert ListBag(s)[c] == IdBag(s[0])[c] + ListBag(rest)[c];
    if c == d {
      assert false;
    }
  }
}
