/** The 256-slot frequency table (`cnt_freq` in huffman.py, without the file access). */
module Frequency {

  /** One symbol of the input: a byte value. */
  type Byte = x: nat | x < 256

  /** The table the counting loop should produce: slot `c` holds the occurrences of `c`. */
  function Frequencies(data: seq<Byte>): seq<nat> {
    seq(256, c => multiset(data)[c])
  }

  /** Python's `sum` over a list of counts, added up from the front. */
  function Sum(f: seq<nat>): nat {
    if f == [] then 0 else Sum(f[..|f| - 1]) + f[|f| - 1]
  }

  /**
    The nonzero entries of `f` as `(symbol, count)` pairs in ascending symbol order: the
    order both the leaf list of `create_huff_tree` and the header of `create_header` follow.
  */
  function NonzeroEntries(f: seq<nat>): seq<(nat, nat)> {
    if f == [] then []
    else
      var n := |f| - 1;
      NonzeroEntries(f[..n]) + (if f[n] != 0 then [(n, f[n])] else [])
  }

  /**
    The entries are exactly the nonzero slots: each names a slot and carries its nonzero
    count, the symbols strictly increase, and no nonzero slot is missing.
  */
  lemma {:induction false} NonzeroEntriesSpec(f: seq<nat>)
    ensures var r := NonzeroEntries(f);
      && (forall k :: 0 <= k < |r| ==> r[k].0 < |f| && r[k].1 == f[r[k].0] && r[k].1 != 0)
      && (forall k, l :: 0 <= k < l < |r| ==> r[k].0 < r[l].0)
      && (forall i :: 0 <= i < |f| && f[i] != 0 ==> (i, f[i]) in r)
  {
    if f != [] {
      var n := |f| - 1;
      NonzeroEntriesSpec(f[..n]);
      assert forall i :: 0 <= i < n ==> f[..n][i] == f[i];
    }
  }

  /** Extending the table by one slot appends that slot's entry when its count is nonzero. */
  lemma NonzeroEntriesSnoc(f: seq<nat>, n: nat)
    requires n < |f|
    ensures NonzeroEntries(f[..n + 1]) == NonzeroEntries(f[..n]) + (if f[n] != 0 then [(n, f[n])] else [])
  {
    assert f[..n + 1][..n] == f[..n];
  }

  /** A run of zero slots adds no entries. */
  lemma {:induction false} NonzeroEntriesZeroRun(f: seq<nat>, m: nat, n: nat)
    requires m <= n <= |f|
    requires forall i :: m <= i < n ==> f[i] == 0
    ensures NonzeroEntries(f[..n]) == NonzeroEntries(f[..m])
    decreases n - m
  {
    if m < n {
      NonzeroEntriesSnoc(f, m);
      NonzeroEntriesZeroRun(f, m + 1, n);
      assert NonzeroEntries(f[..m]) + [] == NonzeroEntries(f[..m]);
    }
  }

  /** The counts add up to zero exactly when every count is zero. */
  lemma {:induction false} SumIsZero(f: seq<nat>)
    ensures Sum(f) == 0 <==> forall i :: 0 <= i < |f| ==> f[i] == 0
  {
    if f != [] {
      SumIsZero(f[..|f| - 1]);
      assert forall i :: 0 <= i < |f| - 1 ==> f[..|f| - 1][i] == f[i];
    }
  }

  /** The counts add up to zero exactly when there is no nonzero entry. */
  lemma SumIsZeroWithoutEntries(f: seq<nat>)
    ensures Sum(f) == 0 <==> NonzeroEntries(f) == []
  {
    SumIsZero(f);
    if Sum(f) != 0 {
      NonzeroEntriesSpec(f);
      var i :| 0 <= i < |f| && f[i] != 0;
      assert (i, f[i]) in NonzeroEntries(f);
    }
  }

  lemma {:induction false} SumOfIncrement(f: seq<nat>, b: nat)
    requires b < |f|
    ensures Sum(f[b := f[b] + 1]) == Sum(f) + 1
  {
    var n := |f| - 1;
    var g := f[b := f[b] + 1];
    if b == n {
      assert g[..n] == f[..n];
    } else {
      assert g[..n] == f[..n][b := f[b] + 1];
      SumOfIncrement(f[..n], b);
    }
  }

  /** The table has 256 slots, all zero for an empty input, and its counts add up to the input length. */
  lemma {:induction false} SumOfFrequencies(data: seq<Byte>)
    ensures |Frequencies(data)| == 256
    ensures data == [] ==> forall c :: 0 <= c < 256 ==> Frequencies(data)[c] == 0
    ensures Sum(Frequencies(data)) == |data|
  {
    if data == [] {
      SumIsZero(Frequencies(data));
    } else {
      var n := |data| - 1;
      var b := data[n];
      assert data == data[..n] + [b];
      assert multiset(data) == multiset(data[..n]) + multiset{b};
      assert Frequencies(data) == Frequencies(data[..n])[b := Frequencies(data[..n])[b] + 1];
      SumOfFrequencies(data[..n]);
      SumOfIncrement(Frequencies(data[..n]), b);
    }
  }

  /** The counting loop of `cnt_freq`: one increment of slot `b` per input byte `b`. */
  method CountFrequencies(data: seq<Byte>) returns (values: seq<nat>)
    ensures values == Frequencies(data)
  {
    var table := new nat[256](_ => 0);
    for i := 0 to |data|
      invariant forall c :: 0 <= c < 256 ==> table[c] == multiset(data[..i])[c]
    {
      assert data[..i + 1] == data[..i] + [data[i]];
      table[data[i]] := table[data[i]] + 1;
    }
    assert data[..|data|] == data;
    values := table[..];
  }
}
