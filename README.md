# Canonical Huffman encoder, modelled in Dafny

This project models `huffman.py`, a canonical Huffman encoder for the 256 byte values. The
model follows the encoder from its byte input to the text it writes:

- **Frequency counting** (`cnt_freq`): a 256-slot table of occurrence counts.
- **Node order** (`comes_before`): nodes are compared by `(freq, char_ascii)`.
- **Merge** (`combine`): the weights add up, the id is the smaller id, and the node that
  comes first goes on the left.
- **Working-list ordering** (`huff_helper`): a recursive adjacent-swap sort.
- **Tree building** (`create_huff_tree`): repeatedly merges the first two entries of the
  ordered working list.
- **Code table** (`create_code`, `create_code_helper`): a walk that appends `'0'` when it
  goes left and `'1'` when it goes right.
- **Header** (`create_header`): the `"symbol count"` pairs.
- **Payload** (the loop in `huffman_encode`): the codes of the input bytes, concatenated.

Code that works step by step in the source is a Dafny method here, proved against a
specification function:

- `CountFrequencies` writes into a 256-entry array.
- `HuffHelper` swaps entries of an array in place and calls itself.
- `CreateHuffTree` rebuilds its working list in a loop.
- `CreateCodeHelper` writes into a shared 256-entry array while it recurses.
- `CreateHeader` and `EncodePayload` grow strings in loops.

`comes_before` and `combine` only build values, so they are Dafny functions.

Modules, in dependency order:

- `Wrappers`: `Option`.
- `Nodes`: the tree datatype `HTree = Empty | Node(charAscii, freq, left, right)`, the order,
  the merge, and the tree invariants.
- `Frequency`: the count table.
- `Ordering`: `huff_helper`, a reference insertion sort, and the uniqueness of the ordering.
- `TreeBuilder`: `create_huff_tree`, with the functional reference `HuffTree`.
- `CodeTable`: `create_code`.
- `Header`: `create_header`, and a parser proved to be its inverse.
- `Decoder`: a decoder for the encoder's output. It is not part of `huffman.py`; it is an
  independent reference definition, used to state that encoding loses nothing.
- `Encoder`: `huffman_encode`, with the input given as bytes and the output returned as text.
  This module also holds the `aaabbbbcc` worked example.

The library sort by frequency before each `huff_helper` call (huffman.py:89 and :95) is not
modelled. `huff_helper` on its own leaves the list ordered by `comes_before`. The ids in the
working list are distinct, so that order is total, and `OrderedIsUnique` proves there is only
one ordered arrangement of the list. So with or without the sort, the list after
`huff_helper` is the same.

The ids are distinct because every node's id is the least leaf id below it
(`IdIsLeastLeaf`), and no leaf id appears twice across the working list.

## Model

| member | source | states |
|---|---|---|
| `Nodes.ComesBeforeIsLexicographic` | huffman.py:19-29 | for byte symbols, `comes_before(a, b)` holds exactly when the single key `freq * 256 + char_ascii` of `a` is below that of `b`, i.e. `(freq, char_ascii)` compares lexicographically |
| `Nodes.ComesBeforeIsStrictTotalOrder` | huffman.py:19-29 | the order is irreflexive, asymmetric and transitive; for nodes with different keys exactly one of `comes_before(a, b)` and `comes_before(b, a)` holds |
| `Nodes.Combine` | huffman.py:32-50 | the merged node weighs `a.freq + b.freq` and carries `min(a.char_ascii, b.char_ascii)`; its children are `a` and `b`, with the one that comes first on the left (`b` on the left when neither comes first) |
| `Nodes.CombineCommutes` | huffman.py:32-50 | when the keys differ, merging `a` with `b` gives the same node as merging `b` with `a` |
| `Nodes.CombineKeepsInvariants` | huffman.py:32-50 | merging two well-formed trees gives a well-formed tree whose leaves are the leaves of both, with their counts unchanged |
| `Nodes.IdIsLeastLeaf` | huffman.py:32-50 | the id of a merged node is the least symbol among the leaves below it, and is itself one of them |
| `Nodes.DistinctIdsFromBag` | huffman.py:91-96 | trees in the working list that share no leaf symbol have different ids, so `comes_before` orders any two of them |
| `Frequency.CountFrequencies` | huffman.py:62-65 | the counting loop returns the table whose slot `c` is the number of occurrences of byte `c` |
| `Frequency.SumOfFrequencies` | huffman.py:62-65 | the table has 256 slots, is all zeros for an empty input, and its counts add up to the input length |
| `Frequency.SumIsZero` | huffman.py:80-81 | `sum(char_freq) == 0` exactly when every count is zero |
| `Frequency.NonzeroEntriesSpec` | huffman.py:85-88 | the nonzero slots, in ascending symbol order, each with its count; none is missing |
| `Ordering.SwapRemovesInversion` | huffman.py:70-73 | swapping an adjacent pair that is out of order, with different ids, removes exactly one inversion (the termination measure of `huff_helper`) |
| `Ordering.HuffHelper` | huffman.py:68-73 | on a list whose ids are distinct, `huff_helper` terminates and leaves a permutation of its input in which every adjacent pair satisfies `comes_before`; the ids stay distinct |
| `Ordering.SortNodesOrdered` | huffman.py:89-90 | the reference insertion sort orders any list whose ids are distinct |
| `Ordering.OrderedIsUnique` | huffman.py:89-90 | two ordered lists holding the same nodes are equal, so the frequency sort before `huff_helper` cannot change its result |
| `Ordering.SortWorkingList` | huffman.py:89-90 | running `huff_helper` on the working list yields the reference sort of that list: ordered, and a permutation of it |
| `TreeBuilder.InitialLeavesAreLeaves` | huffman.py:83-88 | the first working list holds one leaf per nonzero count, carrying that count, with distinct ids |
| `TreeBuilder.InitialLeavesBag` | huffman.py:83-88 | the leaf symbols of the first working list are exactly the symbols with nonzero count, each once |
| `TreeBuilder.InitialLeavesFreq` | huffman.py:83-88 | the first working list weighs the total count |
| `TreeBuilder.MergeFirstTwo` | huffman.py:92-94 | replacing the first two entries by their merge, appended at the end, shortens the list by one and keeps its leaf symbols and its total weight |
| `TreeBuilder.MergesTwoLeast` | huffman.py:91-92 | in the ordered working list the first two entries, the ones merged, are the two least trees: both come before every later entry, and the first before the second |
| `TreeBuilder.BuildKeepsInvariants` | huffman.py:91-97 | the merge loop keeps every tree well formed and agreeing with the counts; the final tree holds all the leaves of the list and weighs the list's total |
| `TreeBuilder.HuffTreeSpec` | huffman.py:76-97 | the result is `None` exactly when all counts are zero; otherwise every internal node has two children, weights add up and ids are minima; the leaves are the nonzero symbols, each once, with their counts; the root weighs the total count; the root is a bare leaf exactly when one symbol occurs |
| `TreeBuilder.SingleSymbolTree` | huffman.py:91-97 | with one nonzero count the tree is the bare leaf of that symbol |
| `TreeBuilder.CreateHuffTree` | huffman.py:76-97 | `create_huff_tree` returns the reference tree `HuffTree` of its counts; its merge loop keeps the working list ordered, so each merge takes the two least trees, and preserves the leaf symbols and the total weight |
| `CodeTable.CreateCodeHelper` | huffman.py:109-114 | the recursive walk writes, for every leaf below the node, the prefix followed by the leaf's path into its slot, left subtree first, and changes nothing else |
| `CodeTable.CreateCode` | huffman.py:100-106 | `create_code` returns the 256-entry table of the walk from the root over a list of empty strings |
| `CodeTable.WriteCodesAt` | huffman.py:109-114 | after the walk, a leaf's slot holds the prefix followed by its root-to-leaf path, and every other slot is unchanged |
| `CodeTable.CodesSpec` | huffman.py:100-114 | unused symbols map to `""`; a leaf symbol's code is its path, `'0'` per left step and `'1'` per right step, and following that code from the root reaches that symbol's leaf |
| `CodeTable.CodesArePrefixFree` | huffman.py:109-114 | no symbol's code is a prefix of a different symbol's code |
| `CodeTable.SingleLeafCode` | huffman.py:109-111 | a single-leaf tree gives that symbol, and every symbol, the code `""` |
| `Header.ParseNatToString` | huffman.py:125 | the decimal text written for each number reads back as that number |
| `Header.CreateHeader` | huffman.py:117-128 | the loop yields `"<symbol> <count>"` for each nonzero count in ascending symbol order, joined by single spaces with no trailing space |
| `Header.HeaderRoundTrip` | huffman.py:117-128 | parsing the header gives back exactly the nonzero `(symbol, count)` pairs, in ascending symbol order |
| `Header.HeaderEmptyIffNoCounts` | huffman.py:121-128 | the header is `""` exactly when all counts are zero |
| `Header.HeaderCharacters` | huffman.py:117-128 | the header holds only digits and spaces, so it fits on the first line of the output |
| `Encoder.EncodePayload` | huffman.py:144-146 | the payload loop returns the in-order concatenation of the codes of the input symbols |
| `Encoder.CodableTree` | huffman.py:135-141 | the tree built from a 256-slot table meets what `create_code` needs: two children or none at every node, and every symbol below 256 |
| `Encoder.InputSymbolsAreLeaves` | huffman.py:135-146 | every input byte labels a leaf of the tree built from the input's counts, so its code is its path |
| `Encoder.PayloadDecodes` | huffman.py:144-146 | with two or more leaves, decoding the payload against the tree gives the input back |
| `Encoder.PayloadOfSingleLeaf` | huffman.py:144-146 | with a one-leaf tree the payload is empty |
| `Encoder.SingleSymbolInput` | huffman.py:135-141 | when the tree is a single leaf, the input is that symbol repeated as often as its count |
| `Encoder.HuffmanEncode` | huffman.py:131-151 | the output is empty for an empty input, and otherwise the header, a line break and the payload |
| `Encoder.EncodedFileEmptyIffNoInput` | huffman.py:136-151 | the output is empty exactly when the input is empty: nothing at all, not even the header line, is written for an empty input |
| `Encoder.EncodeDecodeRoundTrip` | huffman.py:131-151 | reading the output back (header, then tree, then payload) gives the input, for every input |
| `Encoder.SampleTree` | huffman.py:76-97 | for `aaabbbbcc` the tree is `b` on the left and, on the right, a node of weight 5 with `c` on its left and `a` on its right |
| `Encoder.SampleCodes` | huffman.py:109-114 | that tree gives `a = "11"`, `b = "0"` and `c = "10"` |
| `Encoder.SampleEncoding` | huffman.py:117-146 | for `aaabbbbcc` the header is `97 3 98 4 99 2` and the payload is `11111100001010` |
| `Decoder.WalkPath` | huffman.py:109-114 | walking the tree along a symbol's path, followed by any further digits, stops at that symbol's leaf and leaves those digits over |

## Left out

- File access is not modelled: the existence test and its `FileNotFoundError` (huffman.py:58-59), and the `open`, `read`, `write` and `close` calls (huffman.py:60-61, 138-139, 142-143, 148-151). The input is an in-memory sequence of byte values. The output is returned as one string: the header line, then the payload.
- Python's text-mode decoding is not modelled. The model's input stands for the sequence of `ord` values Python reads from the file (huffman.py:60-64, 142-146), each taken to be below 256. These equal the file's bytes only for ASCII text without carriage returns: Python reads a UTF-8 `é` as one symbol (233) where the bytes are two (195, 169), and reads `"\r\n"` as `"\n"`. The `IndexError` that a character above 255 would raise (huffman.py:64, 146) cannot occur in the model.
- The library `list.sort` by frequency (huffman.py:89, 95) is left out. `huff_helper` alone produces the one ordering there is (`OrderedIsUnique`).
- `Ordering.HuffHelper` requires the ids (`char_ascii`) in the list to be distinct. On a list holding two nodes with equal `(freq, char_ascii)`, the source swaps them without end until Python's recursion limit stops it. The requirement also excludes lists that repeat an id with different weights, such as `[Node(5, 2), Node(5, 1)]`, on which the source finishes after one swap; distinct `(freq, char_ascii)` keys would be enough for termination. The builder never passes a list with a repeated id (`DistinctIdsFromBag`).
- `Ordering.HuffHelper` does not model Python's recursion limit. Its recursion depth is the number of swaps it makes.
- `CodeTable.CreateCode` requires a present tree whose nodes have two children or none, with every symbol below 256. `create_code(None)` would dereference `None`, and `huffman_encode` never calls it that way (huffman.py:137-141).
- `Decoder` is not part of `huffman.py`. It is a reference definition against which the encoder's output is proved readable.
- `Header.ParseHeader` is not part of `huffman.py`. It is the inverse against which the header format is proved.
