/**
  The inverse of the encoder's output, given as an independent reference definition: split
  the file at its first line break, rebuild the count table from the header, rebuild the tree
  from the table, and walk the tree along the payload digits.
*/
module Decoder {
  import opened Wrappers
  import opened Nodes
  import opened Frequency
  import opened TreeBuilder
  import opened CodeTable
  import opened Header

  /**
    Walking from `t` along `bits` until a leaf: the leaf's symbol and the digits left over.
    `None` when the digits run out, leave the tree or are not `'0'`/`'1'`.
  */
  function Walk(t: HTree, bits: string): (r: Option<(nat, string)>)
    ensures r.Some? ==> |r.value.1| <= |bits|
    ensures r.Some? && t.Node? && !IsLeaf(t) ==> |r.value.1| < |bits|
  {
    if t.Empty? then None
    else if IsLeaf(t) then Some((t.charAscii, bits))
    else if bits == [] then None
    else if bits[0] == '0' then Walk(t.left, bits[1..])
    else if bits[0] == '1' then Walk(t.right, bits[1..])
    else None
  }

  /** Decoding a payload with a tree of two or more leaves: walk, emit, restart at the root. */
  function Decode(root: HTree, bits: string): Option<seq<nat>>
    requires root.Node? && !IsLeaf(root)
    decreases |bits|
  {
    if bits == [] then Some([])
    else
      match Walk(root, bits)
      case None => None
      case Some((c, rest)) =>
        match Decode(root, rest)
        case None => None
        case Some(s) => Some([c] + s)
  }

  /** Following the path of `c` and then some more digits stops at `c`'s leaf with those digits left. */
  lemma {:induction false} WalkPath(t: HTree, c: nat, rest: string)
    requires Full(t) && c in IdBag(t)
    ensures Walk(t, Path(t, c) + rest) == Some((c, rest))
  {
    if IsLeaf(t) {
      assert Path(t, c) + rest == rest;
    } else {
      assert IdBag(t) == IdBag(t.left) + IdBag(t.right);
      if c in IdBag(t.right) {
        WalkPath(t.right, c, rest);
        assert ("1" + Path(t.right, c) + rest)[1..] == Path(t.right, c) + rest;
      } else {
        WalkPath(t.left, c, rest);
        assert ("0" + Path(t.left, c) + rest)[1..] == Path(t.left, c) + rest;
      }
    }
  }

  /** Digits after a complete walk are left over untouched. */
  lemma {:induction false} WalkConcat(t: HTree, p: string, q: string)
    requires Walk(t, p).Some?
    ensures Walk(t, p + q) == Some((Walk(t, p).value.0, Walk(t, p).value.1 + q))
  {
    if t.Node? && !IsLeaf(t) {
      assert (p + q)[1..] == p[1..] + q;
      if p[0] == '0' {
        WalkConcat(t.left, p[1..], q);
      } else {
        WalkConcat(t.right, p[1..], q);
      }
    }
  }

  /** Decoding two payloads one after the other decodes their concatenation. */
  lemma {:induction false} DecodeConcat(root: HTree, p: string, q: string)
    requires root.Node? && !IsLeaf(root)
    requires Decode(root, p).Some? && Decode(root, q).Some?
    ensures Decode(root, p + q) == Some(Decode(root, p).value + Decode(root, q).value)
    decreases |p|
  {
    if p == [] {
      assert p + q == q;
      assert [] + Decode(root, q).value == Decode(root, q).value;
    } else {
      var w := Walk(root, p).value;
      WalkConcat(root, p, q);
      assert (p + q) != [];
      DecodeConcat(root, w.1, q);
      var s := Decode(root, w.1).value;
      var u := Decode(root, q).value;
      assert [w.0] + s + u == [w.0] + (s + u);
    }
  }

  /** The count that `entries` records for symbol `c` (the last entry for `c` wins; 0 if none). */
  function Lookup(entries: seq<(nat, nat)>, c: nat): nat {
    if entries == [] then 0
    else if entries[|entries| - 1].0 == c then entries[|entries| - 1].1
    else Lookup(entries[..|entries| - 1], c)
  }

  /** The 256-slot count table a header describes. */
  function TableOf(entries: seq<(nat, nat)>): (f: seq<nat>)
    ensures |f| == 256
  {
    seq(256, c requires 0 <= c < 256 => Lookup(entries, c))
  }

  lemma {:induction false} LookupNonzeroEntries(f: seq<nat>, c: nat)
    ensures Lookup(NonzeroEntries(f), c) == if c < |f| then f[c] else 0
  {
    if f != [] {
      var n := |f| - 1;
      assert f[..n + 1] == f;
      NonzeroEntriesSnoc(f, n);
      var front := NonzeroEntries(f[..n]);
      LookupNonzeroEntries(f[..n], c);
      if f[n] == 0 {
        assert NonzeroEntries(f) == front;
      } else {
        assert NonzeroEntries(f)[..|NonzeroEntries(f)| - 1] == front;
      }
    }
  }

  /** The header's entries describe the count table they were taken from. */
  lemma TableOfEntries(f: seq<nat>)
    requires |f| == 256
    ensures TableOf(NonzeroEntries(f)) == f
  {
    forall c | 0 <= c < 256 ensures TableOf(NonzeroEntries(f))[c] == f[c] {
      LookupNonzeroEntries(f, c);
    }
  }

  /** The text before the first line break and the text after it; `None` without a line break. */
  function FirstLine(text: string): Option<(string, string)> {
    if text == [] then None
    else if text[0] == '\n' then Some(([], text[1..]))
    else
      match FirstLine(text[1..])
      case None => None
      case Some((h, p)) => Some(([text[0]] + h, p))
  }

  lemma {:induction false} FirstLineOf(h: string, p: string)
    requires forall i :: 0 <= i < |h| ==> h[i] != '\n'
    ensures FirstLine(h + "\n" + p) == Some((h, p))
  {
    if h == [] {
      assert h + "\n" + p == "\n" + p;
      assert ("\n" + p)[1..] == p;
    } else {
      FirstLineOf(h[1..], p);
      assert (h + "\n" + p)[1..] == h[1..] + "\n" + p;
      assert [h[0]] + h[1..] == h;
    }
  }

  /** `n` copies of symbol `c`. */
  function Repeat(c: nat, n: nat): (s: seq<nat>)
    ensures |s| == n && forall i :: 0 <= i < n ==> s[i] == c
  {
    seq(n, _ => c)
  }

  /**
    Reading an encoded file back: the empty file holds no symbols; otherwise the header gives
    the counts and so the tree, a single-leaf tree means its symbol repeated its count times
    (the payload is then empty), and any other tree decodes the payload.
  */
  function DecodeFile(text: string): Option<seq<nat>> {
    if text == "" then Some([])
    else
      match FirstLine(text)
      case None => None
      case Some((header, payload)) =>
        match ParseHeader(header)
        case None => None
        case Some(entries) =>
          var t := HuffTree(TableOf(entries));
          if t.Empty? then None
          else if IsLeaf(t) then (if payload == "" then Some(Repeat(t.charAscii, t.freq)) else None)
          else Decode(t, payload)
  }
}
