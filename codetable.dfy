/**
  Deriving the code table from a tree (`create_code` and `create_code_helper` in huffman.py):
  a depth-first walk that appends `'0'` when it goes left and `'1'` when it goes right and
  records the digits gathered so far at each leaf.
*/
module CodeTable {
  import opened Nodes

  /** Every leaf id indexes a slot of a table of `n` entries. */
  predicate IdsBelow(t: HTree, n: nat) {
    match t
    case Empty => true
    case Node(c, _, l, r) => if IsLeaf(t) then c < n else IdsBelow(l, n) && IdsBelow(r, n)
  }

  lemma {:induction false} IdsBelowBag(t: HTree, n: nat)
    ensures IdsBelow(t, n) <==> forall c :: c in IdBag(t) ==> c < n
  {
    if t.Node? && !IsLeaf(t) {
      IdsBelowBag(t.left, n);
      IdsBelowBag(t.right, n);
      assert IdBag(t) == IdBag(t.left) + IdBag(t.right);
      assert IdsBelow(t, n) == (IdsBelow(t.left, n) && IdsBelow(t.right, n));
      if forall c :: c in IdBag(t) ==> c < n {
        forall c | c in IdBag(t.left) ensures c < n {
          assert c in IdBag(t);
        }
        forall c | c in IdBag(t.right) ensures c < n {
          assert c in IdBag(t);
        }
      }
    } else if t.Node? {
      assert IdBag(t) == multiset{t.charAscii};
      assert t.charAscii in IdBag(t);
    }
  }

  /**
    The table after the walk of `create_code_helper` from `t` with prefix `code`: each leaf's
    slot is overwritten with its path, left subtree first.
  */
  function WriteCodes(t: HTree, code: string, table: seq<string>): (r: seq<string>)
    requires Full(t) && IdsBelow(t, |table|)
    ensures |r| == |table|
  {
    if IsLeaf(t) then table[t.charAscii := code]
    else WriteCodes(t.right, code + "1", WriteCodes(t.left, code + "0", table))
  }

  /** The table `create_code` returns: 256 slots, `""` where no leaf writes. */
  function Codes(root: HTree): (r: seq<string>)
    requires Full(root) && IdsBelow(root, 256)
    ensures |r| == 256
  {
    WriteCodes(root, "", seq(256, _ => ""))
  }

  /**
    The root-to-leaf path of symbol `c`: `'0'` for each step left, `'1'` for each step right.
    Should the symbol label two leaves, the right-most one counts, as its slot is written last.
  */
  function Path(t: HTree, c: nat): string
    requires c in IdBag(t)
  {
    if IsLeaf(t) then ""
    else if c in IdBag(t.right) then "1" + Path(t.right, c)
    else "0" + Path(t.left, c)
  }

  /** Walking `t` along the digits of `p`; `Empty` when the walk leaves the tree or meets another digit. */
  function Follow(t: HTree, p: string): HTree
    decreases |p|
  {
    if p == [] then t
    else if t.Empty? || IsLeaf(t) then Empty
    else if p[0] == '0' then Follow(t.left, p[1..])
    else if p[0] == '1' then Follow(t.right, p[1..])
    else Empty
  }

  /** The walk writes `code + Path(t, c)` into each slot `c` of a leaf of `t` and leaves the rest. */
  lemma {:induction false} WriteCodesAt(t: HTree, code: string, table: seq<string>, c: nat)
    requires Full(t) && IdsBelow(t, |table|)
    requires c < |table|
    ensures WriteCodes(t, code, table)[c] == if c in IdBag(t) then code + Path(t, c) else table[c]
  {
    if !IsLeaf(t) {
      var mid := WriteCodes(t.left, code + "0", table);
      WriteCodesAt(t.left, code + "0", table, c);
      WriteCodesAt(t.right, code + "1", mid, c);
      assert IdBag(t) == IdBag(t.left) + IdBag(t.right);
    }
  }

  /** Following the path of `c` leads to a leaf labelled `c`. */
  lemma {:induction false} FollowPath(t: HTree, c: nat)
    requires Full(t) && c in IdBag(t)
    ensures IsLeaf(Follow(t, Path(t, c))) && Follow(t, Path(t, c)).charAscii == c
  {
    if !IsLeaf(t) {
      if c in IdBag(t.right) {
        FollowPath(t.right, c);
        assert ("1" + Path(t.right, c))[1..] == Path(t.right, c);
      } else {
        FollowPath(t.left, c);
        assert ("0" + Path(t.left, c))[1..] == Path(t.left, c);
      }
    }
  }

  /** Walking along `p + q` is walking along `p`, then along `q`. */
  lemma {:induction false} FollowConcat(t: HTree, p: string, q: string)
    ensures Follow(t, p + q) == Follow(Follow(t, p), q)
    decreases |p|
  {
    if p == [] {
      assert p + q == q;
    } else if t.Empty? || IsLeaf(t) {
      assert Follow(Empty, q) == Empty;
    } else {
      assert (p + q)[1..] == p[1..] + q;
      FollowConcat(t.left, p[1..], q);
      FollowConcat(t.right, p[1..], q);
    }
  }

  /** A walk ends at a leaf: any further digit leaves the tree. */
  lemma FollowPastLeaf(t: HTree, rest: string)
    requires IsLeaf(t)
    ensures Follow(t, rest) == if rest == [] then t else Empty
  {
  }

  /**
    What `create_code` computes: 256 slots; a symbol that labels no leaf keeps `""`; the code
    of every other symbol is its root-to-leaf path, so walking it leads back to its leaf.
  */
  lemma CodesSpec(root: HTree, c: nat)
    requires Full(root) && IdsBelow(root, 256)
    requires c < 256
    ensures c !in IdBag(root) ==> Codes(root)[c] == ""
    ensures c in IdBag(root) ==> Codes(root)[c] == Path(root, c)
    ensures c in IdBag(root) ==> IsLeaf(Follow(root, Codes(root)[c])) && Follow(root, Codes(root)[c]).charAscii == c
  {
    WriteCodesAt(root, "", seq(256, _ => ""), c);
    if c in IdBag(root) {
      assert "" + Path(root, c) == Path(root, c);
      FollowPath(root, c);
    }
  }

  /** `p` is a prefix of `q`. */
  predicate IsPrefix(p: string, q: string) {
    |p| <= |q| && q[..|p|] == p
  }

  /** No symbol's code is a prefix of a different symbol's code. */
  lemma CodesArePrefixFree(root: HTree, c: nat, d: nat)
    requires Full(root) && IdsBelow(root, 256)
    requires c < 256 && d < 256
    requires c in IdBag(root) && d in IdBag(root) && c != d
    ensures !IsPrefix(Codes(root)[c], Codes(root)[d])
  {
    CodesSpec(root, c);
    CodesSpec(root, d);
    var p, q := Codes(root)[c], Codes(root)[d];
    if IsPrefix(p, q) {
      var rest := q[|p|..];
      assert q == p + rest;
      FollowPastLeaf(Follow(root, p), rest);
      FollowConcat(root, p, rest);
    }
  }

  /** With a single leaf the walk never descends, so that symbol's code is empty. */
  lemma SingleLeafCode(root: HTree)
    requires IsLeaf(root) && root.charAscii < 256
    ensures Codes(root)[root.charAscii] == ""
    ensures forall c :: 0 <= c < 256 ==> Codes(root)[c] == ""
  {
  }

  /** `create_code_helper`: write the code of every leaf below `node` into the shared list. */
  method CreateCodeHelper(node: HTree, code: string, pyList: array<string>)
    requires Full(node) && IdsBelow(node, pyList.Length)
    modifies pyList
    ensures pyList[..] == WriteCodes(node, code, old(pyList[..]))
    decreases node
  {
    if node.left.Empty? && node.right.Empty? {
      pyList[node.charAscii] := code;
    } else {
      CreateCodeHelper(node.left, code + "0", pyList);
      CreateCodeHelper(node.right, code + "1", pyList);
    }
  }

  /** `create_code`: a 256-entry list of `""`, filled in by the walk from the root. */
  method CreateCode(node: HTree) returns (codes: seq<string>)
    requires Full(node) && IdsBelow(node, 256)
    ensures codes == Codes(node)
  {
    var pyList := new string[256](_ => "");
    assert pyList[..] == seq(256, _ => "");
    CreateCodeHelper(node, "", pyList);
    codes := pyList[..];
  }
}
