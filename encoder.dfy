/**
  The encoder of huffman.py (`huffman_encode`, without the file access): count, build the
  tree, derive the code table, concatenate the codes of the input symbols, and put the header
  line in front. Proved to be undone by the decoder.
*/
module Encoder {
  import opened Wrappers
  import opened Nodes
  import opened Frequency
  import opened Ordering
  import opened TreeBuilder
  import opened CodeTable
  import opened Header
  import opened Decoder

  /** The payload: the codes of the input symbols, in input order. */
  function Payload(codes: seq<string>, data: seq<Byte>): string
    requires |codes| == 256
  {
    if data == [] then "" else Payload(codes, data[..|data| - 1]) + codes[data[|data| - 1]]
  }

  /** The payload loop of `huffman_encode`: append the code of each input symbol. */
  method EncodePayload(codeList: seq<string>, phrase: seq<Byte>) returns (code: string)
    requires |codeList| == 256
    ensures code == Payload(codeList, phrase)
  {
    code := "";
    for i := 0 to |phrase|
      invariant code == Payload(codeList, phrase[..i])
    {
      assert phrase[..i + 1][..i] == phrase[..i];
      code := code + codeList[phrase[i]];
    }
    assert phrase[..|phrase|] == phrase;
  }

  /** The tree built from a 256-slot table can be handed to `create_code`. */
  lemma CodableTree(f: seq<nat>)
    requires |f| == 256
    ensures HuffTree(f) != Empty ==> Full(HuffTree(f)) && IdsBelow(HuffTree(f), 256)
  {
    HuffTreeSpec(f);
    var t := HuffTree(f);
    if t != Empty {
      WellFormedIsFull(t);
      forall c | c in IdBag(t) ensures c < 256 {
        SymbolBagCount(f, c);
      }
      IdsBelowBag(t, 256);
    }
  }

  /**
    The text `huffman_encode` writes: nothing for an empty input, otherwise the header, a line
    break and the payload.
  */
  function EncodedFile(data: seq<Byte>): string {
    var f := Frequencies(data);
    SumOfFrequencies(data);
    CodableTree(f);
    var t := HuffTree(f);
    if t.Empty? then "" else HeaderText(f) + "\n" + Payload(Codes(t), data)
  }

  /** The output is empty exactly when the input is: no header line is written for an empty input. */
  lemma EncodedFileEmptyIffNoInput(data: seq<Byte>)
    ensures EncodedFile(data) == "" <==> data == []
  {
    var f := Frequencies(data);
    SumOfFrequencies(data);
    SumIsZero(f);
    HuffTreeSpec(f);
    if data != [] {
      assert data[0] in multiset(data);
      assert f[data[0]] != 0;
      assert HuffTree(f) != Empty;
      assert |EncodedFile(data)| >= 1;
    }
  }

  /** `huffman_encode` with the input given as bytes and the output returned as text. */
  method HuffmanEncode(phrase: seq<Byte>) returns (output: string)
    ensures output == EncodedFile(phrase)
  {
    var freqlist := CountFrequencies(phrase);
    var huff := CreateHuffTree(freqlist);
    if huff.Empty? {
      output := "";
    } else {
      SumOfFrequencies(phrase);
      CodableTree(freqlist);
      var codeList := CreateCode(huff);
      var code := EncodePayload(codeList, phrase);
      var header := CreateHeader(freqlist);
      output := header + "\n" + code;
    }
  }

  /** Every input symbol labels a leaf of the tree built from the input's counts. */
  lemma InputSymbolsAreLeaves(data: seq<Byte>, i: nat)
    requires i < |data|
    ensures data[i] in IdBag(HuffTree(Frequencies(data)))
  {
    var f := Frequencies(data);
    SumOfFrequencies(data);
    assert data[i] in multiset(data);
    SymbolBagCount(f, data[i]);
    SumIsZero(f);
    HuffTreeSpec(f);
  }

  /** With a tree of two or more leaves, decoding the payload gives the input back. */
  lemma {:induction false} PayloadDecodes(root: HTree, data: seq<Byte>)
    requires Full(root) && IdsBelow(root, 256) && !IsLeaf(root)
    requires forall i :: 0 <= i < |data| ==> data[i] in IdBag(root)
    ensures Decode(root, Payload(Codes(root), data)) == Some(data)
  {
    if data != [] {
      var n := |data| - 1;
      var x := data[n];
      var code := Codes(root)[x];
      PayloadDecodes(root, data[..n]);
      CodesSpec(root, x);
      WalkPath(root, x, "");
      assert code + "" == code;
      assert Walk(root, code) == Some((x, ""));
      assert code != [];
      assert Decode(root, "") == Some([]);
      assert [x] + [] == [x];
      assert Decode(root, code) == Some([x]);
      DecodeConcat(root, Payload(Codes(root), data[..n]), code);
      assert data[..n] + [x] == data;
    }
  }

  /** With a one-leaf tree every code is empty, and so is the payload. */
  lemma {:induction false} PayloadOfSingleLeaf(root: HTree, data: seq<Byte>)
    requires IsLeaf(root) && root.charAscii < 256
    ensures Payload(Codes(root), data) == ""
  {
    SingleLeafCode(root);
    if data != [] {
      PayloadOfSingleLeaf(root, data[..|data| - 1]);
    }
  }

  /** When the tree is one leaf the input is that symbol, repeated as often as its count. */
  lemma SingleSymbolInput(data: seq<Byte>)
    requires IsLeaf(HuffTree(Frequencies(data)))
    ensures data == Repeat(HuffTree(Frequencies(data)).charAscii, HuffTree(Frequencies(data)).freq)
  {
    var f := Frequencies(data);
    var t := HuffTree(f);
    SumOfFrequencies(data);
    HuffTreeSpec(f);
    forall i | 0 <= i < |data| ensures data[i] == t.charAscii {
      InputSymbolsAreLeaves(data, i);
    }
  }

  /** Reading a file whose header describes the table `f` rebuilds the tree of `f`. */
  lemma DecodeFileWithHeader(f: seq<nat>, payload: string)
    requires |f| == 256
    ensures var text := HeaderText(f) + "\n" + payload;
      var t := HuffTree(f);
      t.Node? ==>
        DecodeFile(text) ==
          if IsLeaf(t) then (if payload == "" then Some(Repeat(t.charAscii, t.freq)) else None)
          else Decode(t, payload)
  {
    var header := HeaderText(f);
    HeaderCharacters(f);
    FirstLineOf(header, payload);
    HeaderRoundTrip(f);
    TableOfEntries(f);
    assert header + "\n" + payload != "";
  }

  /** Decoding what the encoder writes gives back the input, for every input. */
  lemma EncodeDecodeRoundTrip(data: seq<Byte>)
    ensures DecodeFile(EncodedFile(data)) == Some(data)
  {
    var f := Frequencies(data);
    SumOfFrequencies(data);
    CodableTree(f);
    HuffTreeSpec(f);
    SumIsZero(f);
    var t := HuffTree(f);
    if t.Empty? {
      assert |data| == 0;
    } else {
      DecodeFileWithHeader(f, Payload(Codes(t), data));
      if IsLeaf(t) {
        PayloadOfSingleLeaf(t, data);
        SingleSymbolInput(data);
      } else {
        forall i | 0 <= i < |data| ensures data[i] in IdBag(t) {
          InputSymbolsAreLeaves(data, i);
        }
        PayloadDecodes(t, data);
      }
    }
  }

  /** The input `aaabbbbcc` as bytes. */
  function SampleInput(): (data: seq<Byte>)
    ensures |data| == 9
  {
    [97, 97, 97, 98, 98, 98, 98, 99, 99]
  }

  /** The counts of `aaabbbbcc`: 3, 4 and 2 at `a`, `b` and `c`, zero elsewhere. */
  lemma SampleCounts()
    ensures var f := Frequencies(SampleInput());
      |f| == 256 && f[97] == 3 && f[98] == 4 && f[99] == 2
      && (forall c :: 0 <= c < 256 && c != 97 && c != 98 && c != 99 ==> f[c] == 0)
  {
    var data := SampleInput();
    assert multiset(data) == multiset{97, 97, 97, 98, 98, 98, 98, 99, 99};
  }

  lemma SampleEntries()
    ensures NonzeroEntries(Frequencies(SampleInput())) == [(97, 3), (98, 4), (99, 2)]
  {
    SampleCounts();
    EntriesOfThreeCounts(Frequencies(SampleInput()));
  }

  /** The entries of a table whose only nonzero counts are `a = 3`, `b = 4` and `c = 2`. */
  lemma EntriesOfThreeCounts(f: seq<nat>)
    requires |f| == 256 && f[97] == 3 && f[98] == 4 && f[99] == 2
    requires forall c :: 0 <= c < 256 && c != 97 && c != 98 && c != 99 ==> f[c] == 0
    ensures NonzeroEntries(f) == [(97, 3), (98, 4), (99, 2)]
  {
    NonzeroEntriesZeroRun(f, 0, 97);
    assert f[..0] == [];
    NonzeroEntriesSnoc(f, 97);
    NonzeroEntriesSnoc(f, 98);
    NonzeroEntriesSnoc(f, 99);
    NonzeroEntriesZeroRun(f, 100, 256);
    assert f[..256] == f;
  }

  /** The tree of `aaabbbbcc`: `b` alone on the left, `c` and `a` below the right child. */
  lemma SampleTree()
    ensures HuffTree(Frequencies(SampleInput()))
         == Node(97, 9, Leaf(98, 4), Node(97, 5, Leaf(99, 2), Leaf(97, 3)))
  {
    SampleEntries();
    TreeOfThreeCounts(Frequencies(SampleInput()));
  }

  /** The tree of any table whose nonzero counts are `a = 3`, `b = 4` and `c = 2`. */
  lemma TreeOfThreeCounts(f: seq<nat>)
    requires NonzeroEntries(f) == [(97, 3), (98, 4), (99, 2)]
    ensures HuffTree(f) == Node(97, 9, Leaf(98, 4), Node(97, 5, Leaf(99, 2), Leaf(97, 3)))
  {
    var a, b, c := Leaf(97, 3), Leaf(98, 4), Leaf(99, 2);
    SumIsZeroWithoutEntries(f);
    assert InitialLeaves(f) == [a, b, c];
    SampleSort(a, b, c);
    SampleBuild(a, b, c);
  }

  /** Ordering the three leaves of the example puts `c` first, then `a`, then `b`. */
  lemma SampleSort(a: HuffmanNode, b: HuffmanNode, c: HuffmanNode)
    requires a == Leaf(97, 3) && b == Leaf(98, 4) && c == Leaf(99, 2)
    ensures SortNodes([a, b, c]) == [c, a, b]
  {
    assert [a, b, c][1..] == [b, c];
    SortTwo(b, c);
    InsertBetween(a, c, b);
  }

  /** Two nodes are put in `ComesBefore` order. */
  lemma SortTwo(x: HuffmanNode, y: HuffmanNode)
    requires ComesBefore(y, x)
    ensures SortNodes([x, y]) == [y, x]
  {
    assert [x, y][1..] == [y] && [y][1..] == [];
    assert SortNodes([y]) == [y] by { assert Insert(y, []) == [y]; }
    assert Insert(x, [y]) == [y, x] by { assert Insert(x, []) == [x]; }
  }

  /** A node that comes after the first of two and before the second goes between them. */
  lemma InsertBetween(x: HuffmanNode, y: HuffmanNode, z: HuffmanNode)
    requires ComesBefore(y, x) && ComesBefore(x, z)
    ensures Insert(x, [y, z]) == [y, x, z]
  {
    assert [y, z][1..] == [z];
    assert Insert(x, [z]) == [x, z];
  }

  /** The two merges of the example: `c` with `a`, then `b` with that node. */
  lemma SampleBuild(a: HuffmanNode, b: HuffmanNode, c: HuffmanNode)
    requires a == Leaf(97, 3) && b == Leaf(98, 4) && c == Leaf(99, 2)
    ensures Build([c, a, b]) == Node(97, 9, b, Node(97, 5, c, a))
  {
    var n := Combine(c, a);
    assert n == Node(97, 5, c, a);
    assert MergeFirstTwo([c, a, b]) == [b, n];
    assert [b, n][1..] == [n];
    assert SortNodes([b, n]) == [b, n];
    assert MergeFirstTwo([b, n]) == [Combine(b, n)];
    assert Build([b, n]) == Combine(b, n);
  }

  /** The header words of the example, joined. */
  lemma SampleHeader()
    ensures Join(Fields([(97, 3), (98, 4), (99, 2)])) == "97 3 98 4 99 2"
  {
    SampleFields();
    SampleJoin(["97", "3", "98", "4", "99", "2"]);
  }

  /** The example's entries give the words `97 3 98 4 99 2`. */
  lemma SampleFields()
    ensures Fields([(97, 3), (98, 4), (99, 2)]) == ["97", "3", "98", "4", "99", "2"]
  {
    var e: seq<(nat, nat)> := [(97, 3), (98, 4), (99, 2)];
    assert NatToString(97) == "97" && NatToString(98) == "98" && NatToString(99) == "99";
    assert NatToString(3) == "3" && NatToString(4) == "4" && NatToString(2) == "2";
    assert Fields(e[..1]) == ["97", "3"] by { assert e[..1][..0] == []; }
    assert Fields(e[..2]) == ["97", "3", "98", "4"] by { assert e[..2][..1] == e[..1]; }
    assert e[..3] == e && e[..3][..2] == e[..2];
  }

  /** Joining the example's words with single spaces. */
  lemma SampleJoin(ws: seq<string>)
    requires ws == ["97", "3", "98", "4", "99", "2"]
    ensures Join(ws) == "97 3 98 4 99 2"
  {
    assert Join(ws[..2]) == "97 3" by { assert ws[..2][..1] == ["97"]; }
    assert Join(ws[..3]) == "97 3 98" by { assert ws[..3][..2] == ws[..2]; }
    assert Join(ws[..4]) == "97 3 98 4" by { assert ws[..4][..3] == ws[..3]; }
    assert Join(ws[..5]) == "97 3 98 4 99" by { assert ws[..5][..4] == ws[..4]; }
    assert ws[..6] == ws && ws[..6][..5] == ws[..5];
  }

  /** The example tree gives `a = 11`, `b = 0` and `c = 10`. */
  lemma SampleCodes(t: HTree)
    requires t == Node(97, 9, Leaf(98, 4), Node(97, 5, Leaf(99, 2), Leaf(97, 3)))
    ensures Full(t) && IdsBelow(t, 256)
    ensures Codes(t)[97] == "11" && Codes(t)[98] == "0" && Codes(t)[99] == "10"
  {
    assert IdBag(t.right) == multiset{99, 97};
    CodesSpec(t, 97);
    CodesSpec(t, 98);
    CodesSpec(t, 99);
  }

  /** The payload of `aaabbbbcc` under those codes. */
  lemma SamplePayload(codes: seq<string>)
    requires |codes| == 256 && codes[97] == "11" && codes[98] == "0" && codes[99] == "10"
    ensures Payload(codes, SampleInput()) == "11111100001010"
  {
    var d := SampleInput();
    assert d[..9] == d;
    assert d[..8] == d[..9][..8];
    assert Payload(codes, d[..0]) == "";
    assert Payload(codes, d[..1]) == "11" by { assert d[..1][..0] == d[..0]; }
    assert Payload(codes, d[..2]) == "1111" by { assert d[..2][..1] == d[..1]; }
    assert Payload(codes, d[..3]) == "111111" by { assert d[..3][..2] == d[..2]; }
    assert Payload(codes, d[..4]) == "1111110" by { assert d[..4][..3] == d[..3]; }
    assert Payload(codes, d[..5]) == "11111100" by { assert d[..5][..4] == d[..4]; }
    assert Payload(codes, d[..6]) == "111111000" by { assert d[..6][..5] == d[..5]; }
    assert Payload(codes, d[..7]) == "1111110000" by { assert d[..7][..6] == d[..6]; }
    assert Payload(codes, d[..8]) == "111111000010" by { assert d[..8][..7] == d[..7]; }
    assert Payload(codes, d[..9]) == "11111100001010" by { assert d[..9][..8] == d[..8]; }
  }

  lemma SampleLine(header: string, payload: string)
    requires header == "97 3 98 4 99 2" && payload == "11111100001010"
    ensures header + "\n" + payload == "97 3 98 4 99 2\n11111100001010"
  {
  }

  /**
    The worked example of `create_header`: for `aaabbbbcc` the header is `97 3 98 4 99 2`,
    the codes are `b = 0`, `c = 10`, `a = 11`, and the payload is `11111100001010`.
  */
  lemma SampleEncoding()
    ensures HeaderText(Frequencies(SampleInput())) == "97 3 98 4 99 2"
    ensures EncodedFile(SampleInput()) == "97 3 98 4 99 2\n11111100001010"
  {
    var data := SampleInput();
    var f := Frequencies(data);
    SampleEntries();
    SampleHeader();
    SampleTree();
    var t := HuffTree(f);
    SampleCodes(t);
    SamplePayload(Codes(t));
    var header, payload := HeaderText(f), Payload(Codes(t), data);
    assert EncodedFile(data) == header + "\n" + payload;
    SampleLine(header, payload);
  }
}
