/**
  The header line (`create_header` in huffman.py): `"<symbol> <count>"` for every nonzero
  count in ascending symbol order, separated by single spaces. A parser for that text is
  given beside it, and the two are proved inverse.
*/
module Header {
  import opened Wrappers
  import opened Frequency

  predicate IsDigit(ch: char) {
    '0' <= ch <= '9'
  }

  function DigitChar(d: nat): (ch: char)
    requires d < 10
    ensures IsDigit(ch) && ch as int - '0' as int == d
  {
    ('0' as int + d) as char
  }

  /** Python's `str` on a non-negative integer: its decimal digits, without leading zeros. */
  function NatToString(n: nat): (s: string)
    ensures |s| >= 1
    ensures forall i :: 0 <= i < |s| ==> IsDigit(s[i])
  {
    if n < 10 then [DigitChar(n)] else NatToString(n / 10) + [DigitChar(n % 10)]
  }

  function DigitValue(ch: char): (d: nat)
    requires IsDigit(ch)
    ensures d < 10 && DigitChar(d) == ch
  {
    ch as int - '0' as int
  }

  /** The value of a string of decimal digits (the inverse of `NatToString`). */
  function ParseNat(s: string): nat
    requires forall i :: 0 <= i < |s| ==> IsDigit(s[i])
  {
    if s == [] then 0
    else ParseNat(s[..|s| - 1]) * 10 + DigitValue(s[|s| - 1])
  }

  lemma {:induction false} ParseNatToString(n: nat)
    ensures ParseNat(NatToString(n)) == n
  {
    if n >= 10 {
      var s := NatToString(n);
      assert s[..|s| - 1] == NatToString(n / 10);
      ParseNatToString(n / 10);
    }
  }

  /** The words of the header: symbol and count of each entry, in order. */
  function Fields(entries: seq<(nat, nat)>): (ws: seq<string>)
    ensures |ws| == 2 * |entries|
  {
    if entries == [] then []
    else
      var e := entries[|entries| - 1];
      Fields(entries[..|entries| - 1]) + [NatToString(e.0), NatToString(e.1)]
  }

  /** Words joined by single spaces, with no trailing space. */
  function Join(ws: seq<string>): string {
    if ws == [] then ""
    else if |ws| == 1 then ws[0]
    else Join(ws[..|ws| - 1]) + " " + ws[|ws| - 1]
  }

  /** Every word followed by a space: what the loop of `create_header` accumulates. */
  function Terminated(ws: seq<string>): string {
    if ws == [] then "" else Terminated(ws[..|ws| - 1]) + ws[|ws| - 1] + " "
  }

  /** The header text for the count table `f`. */
  function HeaderText(f: seq<nat>): string {
    Join(Fields(NonzeroEntries(f)))
  }

  /** Splitting a text at every space (`""` gives one empty word). */
  function Split(s: string): (ws: seq<string>)
    ensures |ws| >= 1
  {
    if s == [] then [""]
    else
      var front := Split(s[..|s| - 1]);
      var ch := s[|s| - 1];
      if ch == ' ' then front + [""]
      else front[..|front| - 1] + [front[|front| - 1] + [ch]]
  }

  /** Pairs of numbers from an even number of digit words; `None` on anything else. */
  function PairUp(ws: seq<string>): Option<seq<(nat, nat)>> {
    if ws == [] then Some([])
    else if |ws| == 1 then None
    else
      var a, b := ws[|ws| - 2], ws[|ws| - 1];
      if AllDigits(a) && AllDigits(b) then
        match PairUp(ws[..|ws| - 2])
        case None => None
        case Some(front) => Some(front + [(ParseNat(a), ParseNat(b))])
      else None
  }

  /** Reading a header back into its `(symbol, count)` pairs; the empty header has none. */
  function ParseHeader(text: string): Option<seq<(nat, nat)>> {
    if text == "" then Some([]) else PairUp(Split(text))
  }

  lemma {:induction false} TerminatedIsJoinPlusSpace(ws: seq<string>)
    requires ws != []
    ensures Terminated(ws) == Join(ws) + " "
  {
    if |ws| > 1 {
      TerminatedIsJoinPlusSpace(ws[..|ws| - 1]);
    } else {
      assert ws[..0] == [];
    }
  }

  lemma {:induction false} FieldsAppend(entries: seq<(nat, nat)>, e: (nat, nat))
    ensures Fields(entries + [e]) == Fields(entries) + [NatToString(e.0), NatToString(e.1)]
  {
    assert (entries + [e])[..|entries|] == entries;
  }

  /** One loop step of `create_header` appends `"<symbol> <count> "`. */
  lemma HeaderStep(entries: seq<(nat, nat)>, c: nat, n: nat)
    ensures Terminated(Fields(entries + [(c, n)]))
         == Terminated(Fields(entries)) + NatToString(c) + " " + NatToString(n) + " "
  {
    FieldsAppend(entries, (c, n));
    var ws := Fields(entries);
    var a, b := NatToString(c), NatToString(n);
    assert (ws + [a, b])[..|ws| + 1] == ws + [a];
    assert (ws + [a])[..|ws|] == ws;
  }

  /** Appending a character other than a space to a text extends its last word. */
  lemma SplitSnoc(s: string, ch: char)
    requires ch != ' '
    ensures Split(s + [ch]) == Split(s)[..|Split(s)| - 1] + [Split(s)[|Split(s)| - 1] + [ch]]
  {
    assert (s + [ch])[..|s|] == s;
  }

  /** Appending a word with no space to a text extends its last word. */
  lemma {:induction false} SplitAppendWord(s: string, w: string)
    requires forall i :: 0 <= i < |w| ==> w[i] != ' '
    ensures Split(s + w) == Split(s)[..|Split(s)| - 1] + [Split(s)[|Split(s)| - 1] + w]
    decreases |w|
  {
    var S := Split(s);
    var k := |S| - 1;
    if w == [] {
      assert s + w == s;
      assert S[k] + w == S[k];
      assert S[..k] + [S[k]] == S;
    } else {
      var v, ch := w[..|w| - 1], w[|w| - 1];
      assert v + [ch] == w;
      SplitAppendWord(s, v);
      var F := Split(s + v);
      assert F == S[..k] + [S[k] + v];
      assert s + w == (s + v) + [ch];
      SplitSnoc(s + v, ch);
      assert Split(s + w) == F[..k] + [F[k] + [ch]];
      assert F[..k] == S[..k];
      assert F[k] + [ch] == S[k] + w;
    }
  }

  lemma DropLastThenAppend(ws: seq<string>)
    requires ws != []
    ensures ws[..|ws| - 1] + [ws[|ws| - 1]] == ws
  {
  }

  /** A word made of digits contains no space. */
  predicate AllDigits(w: string) {
    forall i :: 0 <= i < |w| ==> IsDigit(w[i])
  }

  /** Appending a space to a text starts a new, empty last word. */
  lemma SplitAfterSpace(s: string)
    ensures Split(s + " ") == Split(s) + [""]
  {
    assert (s + " ")[..|s|] == s;
  }

  /** Splitting words joined by spaces gives the words back. */
  lemma {:induction false} SplitJoin(ws: seq<string>)
    requires ws != []
    requires forall k :: 0 <= k < |ws| ==> AllDigits(ws[k])
    ensures Split(Join(ws)) == ws
  {
    var n := |ws| - 1;
    if n == 0 {
      SplitAppendWord("", ws[0]);
      assert "" + ws[0] == ws[0];
    } else {
      var init, last := ws[..n], ws[n];
      var front := Join(init);
      SplitJoin(init);
      SplitAfterSpace(front);
      assert forall i :: 0 <= i < |last| ==> last[i] != ' ' by {
        assert AllDigits(last);
      }
      SplitAppendWord(front + " ", last);
      var S := init + [""];
      assert Split(Join(ws)) == S[..n] + [S[n] + last] by {
        assert Join(ws) == (front + " ") + last;
      }
      assert S[..n] == init && S[n] + last == last;
      DropLastThenAppend(ws);
    }
  }

  lemma {:induction false} PairUpFields(entries: seq<(nat, nat)>)
    ensures PairUp(Fields(entries)) == Some(entries)
  {
    if entries != [] {
      var n := |entries| - 1;
      var e := entries[n];
      var ws := Fields(entries);
      var a, b := NatToString(e.0), NatToString(e.1);
      assert ws == Fields(entries[..n]) + [a, b];
      assert ws[..|ws| - 2] == Fields(entries[..n]);
      assert ws[|ws| - 2] == a && ws[|ws| - 1] == b;
      PairUpFields(entries[..n]);
      ParseNatToString(e.0);
      ParseNatToString(e.1);
      assert PairUp(ws) == Some(entries[..n] + [(e.0, e.1)]);
      assert entries[..n] + [e] == entries;
    }
  }

  lemma FieldsAreDigits(entries: seq<(nat, nat)>)
    ensures forall k :: 0 <= k < |Fields(entries)| ==> AllDigits(Fields(entries)[k])
  {
    if entries != [] {
      FieldsAreDigits(entries[..|entries| - 1]);
    }
  }

  /** Reading the header back gives exactly the nonzero entries, in ascending symbol order. */
  lemma HeaderRoundTrip(f: seq<nat>)
    ensures ParseHeader(HeaderText(f)) == Some(NonzeroEntries(f))
  {
    var entries := NonzeroEntries(f);
    var ws := Fields(entries);
    if entries != [] {
      FieldsAreDigits(entries);
      SplitJoin(ws);
      JoinOfWordsIsNotEmpty(ws);
      PairUpFields(entries);
    }
  }

  lemma {:induction false} JoinOfWordsIsNotEmpty(ws: seq<string>)
    requires ws != [] && |ws[|ws| - 1]| >= 1
    ensures Join(ws) != ""
  {
  }

  /** Joined digit words consist of digits and spaces. */
  lemma {:induction false} JoinCharacters(ws: seq<string>)
    requires forall k :: 0 <= k < |ws| ==> AllDigits(ws[k])
    ensures forall i :: 0 <= i < |Join(ws)| ==> Join(ws)[i] == ' ' || IsDigit(Join(ws)[i])
  {
    if |ws| > 1 {
      JoinCharacters(ws[..|ws| - 1]);
      assert AllDigits(ws[|ws| - 1]);
    } else if |ws| == 1 {
      assert AllDigits(ws[0]);
    }
  }

  /** The header is a single line: digits and spaces only. */
  lemma HeaderCharacters(f: seq<nat>)
    ensures forall i :: 0 <= i < |HeaderText(f)| ==> HeaderText(f)[i] == ' ' || IsDigit(HeaderText(f)[i])
  {
    FieldsAreDigits(NonzeroEntries(f));
    JoinCharacters(Fields(NonzeroEntries(f)));
  }

  /** The header is empty exactly when every count is zero. */
  lemma HeaderEmptyIffNoCounts(f: seq<nat>)
    ensures HeaderText(f) == "" <==> Sum(f) == 0
  {
    SumIsZeroWithoutEntries(f);
    var entries := NonzeroEntries(f);
    if entries != [] {
      var ws := Fields(entries);
      assert ws[|ws| - 1] == NatToString(entries[|entries| - 1].1);
      JoinOfWordsIsNotEmpty(ws);
    }
  }

  /**
    `create_header`: for every nonzero count append symbol, space, count, space; then drop
    the last character (slicing an empty string to `len - 1` gives the empty string).
  */
  method CreateHeader(freqs: seq<nat>) returns (header: string)
    ensures header == HeaderText(freqs)
  {
    header := "";
    assert freqs[..0] == [];
    for count := 0 to |freqs|
      invariant header == Terminated(Fields(NonzeroEntries(freqs[..count])))
    {
      var freq := freqs[count];
      ghost var entries := NonzeroEntries(freqs[..count]);
      NonzeroEntriesSnoc(freqs, count);
      if freq != 0 {
        HeaderStep(entries, count, freq);
        header := header + NatToString(count) + " " + NatToString(freq) + " ";
      } else {
        assert entries + [] == entries;
      }
    }
    assert freqs[..|freqs|] == freqs;
    var ws := Fields(NonzeroEntries(freqs));
    if ws != [] {
      TerminatedIsJoinPlusSpace(ws);
    }
    header := if |header| == 0 then header else header[..|header| - 1];
  }
}
