/**
 The probability models of the arithmetic coder (init/demo_net.c: initAriTable, makeCumulative,
 update_fm_ari_model): 257 frequencies and their 258 running totals.
 */
module AriModel {
  import opened Words

  const ROWS: nat := 256      // FMARIROWS, and SPILLCUT
  const SPILL: nat := 257     // FMARISPILL
  const MAXFREQ: nat := 8192

  type Symbol = x: int | 0 <= x <= 256

  /** What the coder transmits of a data word: itself, or the escape symbol. */
  function SymbolOf(w: Word): Symbol { if w < ROWS then w else ROWS }

  function Symbols(ws: seq<Word>): (s: seq<Symbol>)
    ensures |s| == |ws| && forall i | 0 <= i < |ws| :: s[i] == SymbolOf(ws[i])
  {
    seq(|ws|, i requires 0 <= i < |ws| => SymbolOf(ws[i]))
  }

  /** Running totals, starting at 0. */
  function Cumulative(freq: seq<nat>): (c: seq<nat>)
    ensures |c| == |freq| + 1 && c[0] == 0
  {
    if freq == [] then [0]
    else
      var n := |freq| - 1;
      var c := Cumulative(freq[..n]);
      c + [c[n] + freq[n]]
  }

  function Total(freq: seq<nat>): nat { Cumulative(freq)[|freq|] }

  /** What the coder needs of a table of running totals. */
  predicate ValidTotals(cp: seq<nat>) {
    && |cp| == SPILL + 1 && cp[0] == 0 && cp[SPILL] == MAXFREQ
    && forall i | 0 <= i < SPILL :: cp[i] < cp[i + 1]
  }

  predicate ValidFrequencies(freq: seq<nat>) {
    && |freq| == SPILL && Total(freq) == MAXFREQ
    && forall i | 0 <= i < SPILL :: freq[i] >= 1
  }

  lemma {:induction false} CumulativeAt(freq: seq<nat>, i: nat)
    requires i < |freq|
    ensures Cumulative(freq)[i + 1] == Cumulative(freq)[i] + freq[i]
    ensures Cumulative(freq)[i] == Total(freq[..i])
    decreases |freq|
  {
    var n := |freq| - 1;
    if i < n {
      CumulativeAt(freq[..n], i);
      assert freq[..n][..i] == freq[..i];
    }
  }

  lemma TotalsOfFrequencies(freq: seq<nat>)
    requires ValidFrequencies(freq)
    ensures ValidTotals(Cumulative(freq))
  {
    forall i | 0 <= i < SPILL ensures Cumulative(freq)[i] < Cumulative(freq)[i + 1] {
      CumulativeAt(freq, i);
    }
  }

  lemma {:induction false} TotalConcat(a: seq<nat>, b: seq<nat>)
    ensures Total(a + b) == Total(a) + Total(b)
    decreases |b|
  {
    if b == [] {
      assert a + b == a;
    } else {
      var n := |b| - 1;
      assert (a + b)[..|a| + n] == a + b[..n];
      TotalConcat(a, b[..n]);
    }
  }

  // ---------------------------------------------------------------- adaptation

  /** Count the symbols of `s` on top of `freq`. */
  function Count(freq: seq<nat>, s: seq<Symbol>): (r: seq<nat>)
    requires |freq| == SPILL
    ensures |r| == SPILL
  {
    if s == [] then freq
    else
      var n := |s| - 1;
      var c := Count(freq, s[..n]);
      c[s[n] := c[s[n]] + 1]
  }

  function Flat(): (r: seq<nat>)
    ensures |r| == SPILL
  {
    seq(SPILL, _ => 1)
  }

  /** The frequencies derived from a coded chunk; its first 257 symbols are skipped. */
  function Adapted(chunk: seq<Symbol>): (r: seq<nat>)
    requires |chunk| == MAXFREQ
    ensures |r| == SPILL
  {
    Count(Flat(), chunk[SPILL..])
  }

  lemma {:induction false} TotalBump(freq: seq<nat>, i: nat)
    requires i < |freq|
    ensures Total(freq[i := freq[i] + 1]) == Total(freq) + 1
    decreases |freq|
  {
    var n := |freq| - 1;
    var bumped := freq[i := freq[i] + 1];
    if i < n {
      assert bumped[..n] == freq[..n][i := freq[..n][i] + 1];
      TotalBump(freq[..n], i);
    } else {
      assert bumped[..n] == freq[..n];
    }
  }

  lemma {:induction false} CountTotal(freq: seq<nat>, s: seq<Symbol>)
    requires |freq| == SPILL && forall i | 0 <= i < SPILL :: freq[i] >= 1
    ensures Total(Count(freq, s)) == Total(freq) + |s|
    ensures forall i | 0 <= i < SPILL :: Count(freq, s)[i] >= 1
    decreases |s|
  {
    if s != [] {
      var n := |s| - 1;
      CountTotal(freq, s[..n]);
      TotalBump(Count(freq, s[..n]), s[n]);
    }
  }

  lemma {:induction false} TotalOfOnes(n: nat)
    ensures Total(seq(n, _ => 1)) == n
  {
    if n > 0 {
      TotalOfOnes(n - 1);
      assert seq(n, _ => 1)[..n - 1] == seq(n - 1, _ => 1);
    }
  }

  /** A model adapted from a full chunk is always fit for the coder. */
  lemma AdaptedIsValid(chunk: seq<Symbol>)
    requires |chunk| == MAXFREQ
    ensures ValidFrequencies(Adapted(chunk))
  {
    TotalOfOnes(SPILL);
    assert Flat() == seq(SPILL, _ => 1);
    CountTotal(Flat(), chunk[SPILL..]);
  }

  /** Every symbol counts as often as it occurs. */
  lemma {:induction false} CountAt(freq: seq<nat>, s: seq<Symbol>, x: Symbol)
    requires |freq| == SPILL
    ensures Count(freq, s)[x] == freq[x] + multiset(s)[x]
    decreases |s|
  {
    if s != [] {
      var n := |s| - 1;
      CountAt(freq, s[..n], x);
      assert s == s[..n] + [s[n]];
    }
  }

  // ---------------------------------------------------------------- the start table

  const START0: seq<nat> := [201, 200, 200, 197, 199, 194, 195, 190, 192, 184, 186, 178, 181, 172, 174, 165]
  const START1: seq<nat> := [167, 157, 160, 150, 153, 143, 145, 134, 138, 127, 130, 120, 123, 113, 116, 107]
  const START2: seq<nat> := [109, 99, 102, 93, 95, 87, 89, 81, 83, 75, 78, 70, 72, 65, 67, 60]
  const START3: seq<nat> := [62, 56, 58, 51, 54, 47, 49, 44, 46, 40, 42, 37, 39, 34, 36, 31]
  const START4: seq<nat> := [33, 28, 30, 26, 28, 24, 26, 22, 23, 20, 22, 18, 19, 16, 18, 15]
  const START5: seq<nat> := [16, 14, 15, 12, 14, 11, 12, 10, 11, 10, 10, 9, 9, 8, 9, 7]
  const START6: seq<nat> := [8, 7, 7, 6, 7, 5, 6, 5, 5, 4, 5, 4, 5, 4, 4, 4]
  const START7: seq<nat> := [4, 3, 4, 3, 3, 3, 3, 3, 3, 2, 3, 2, 2, 2, 2, 2]
  const START8: seq<nat> := [2, 2, 2, 2, 2, 2, 2, 2, 2, 2, 2, 2, 2, 1, 2, 1]
  const START9: seq<nat> := [2, 1, 2, 1]

  /** The initial histogram: 148 listed entries, 108 ones, and the escape symbol. */
  function StartTable(): (r: seq<nat>)
    ensures |r| == SPILL
  {
    START0 + START1 + START2 + START3 + START4 + START5 + START6 + START7 + START8 + START9
    + seq(108, _ => 1) + [131]
  }

  lemma TotalOf4(r: seq<nat>)
    requires |r| == 4
    ensures Total(r) == r[0] + r[1] + r[2] + r[3]
  {
    CumulativeAt(r, 0);
    CumulativeAt(r, 1);
    CumulativeAt(r, 2);
    CumulativeAt(r, 3);
  }

  lemma TotalOf16(r: seq<nat>)
    requires |r| == 16
    ensures Total(r) == r[0] + r[1] + r[2] + r[3] + r[4] + r[5] + r[6] + r[7]
                      + r[8] + r[9] + r[10] + r[11] + r[12] + r[13] + r[14] + r[15]
  {
    assert r == r[0..4] + r[4..8] + r[8..12] + r[12..16];
    TotalConcat(r[0..4] + r[4..8] + r[8..12], r[12..16]);
    TotalConcat(r[0..4] + r[4..8], r[8..12]);
    TotalConcat(r[0..4], r[4..8]);
    TotalOf4(r[0..4]);
    TotalOf4(r[4..8]);
    TotalOf4(r[8..12]);
    TotalOf4(r[12..16]);
  }

  predicate Positive(r: seq<nat>) { forall i | 0 <= i < |r| :: r[i] >= 1 }

  lemma StartRowsLow()
    ensures Total(START0) == 3008 && Total(START1) == 2183 && Total(START2) == 1325
    ensures Total(START3) == 726 && Total(START4) == 368
    ensures Positive(START0) && Positive(START1) && Positive(START2) && Positive(START3) && Positive(START4)
  {
    TotalOf16(START0);
    TotalOf16(START1);
    TotalOf16(START2);
    TotalOf16(START3);
    TotalOf16(START4);
  }

  lemma StartRowsHigh()
    ensures Total(START5) == 177 && Total(START6) == 86 && Total(START7) == 44
    ensures Total(START8) == 30 && Total(START9) == 6
    ensures Positive(START5) && Positive(START6) && Positive(START7) && Positive(START8) && Positive(START9)
  {
    TotalOf16(START5);
    TotalOf16(START6);
    TotalOf16(START7);
    TotalOf16(START8);
    TotalOf4(START9);
  }

  lemma FourRows(a: seq<nat>, b: seq<nat>, c: seq<nat>, d: seq<nat>)
    requires Positive(a) && Positive(b) && Positive(c) && Positive(d)
    ensures Positive(a + b + c + d) && Total(a + b + c + d) == Total(a) + Total(b) + Total(c) + Total(d)
  {
    TotalConcat(a + b + c, d);
    TotalConcat(a + b, c);
    TotalConcat(a, b);
  }

  /** The start table meets the same condition as every adapted model. */
  lemma StartTableIsValid()
    ensures ValidFrequencies(StartTable())
  {
    var ones: seq<nat>, last: seq<nat> := seq(108, _ => 1), [131];
    StartRowsLow();
    StartRowsHigh();
    TotalOfOnes(108);
    CumulativeAt(last, 0);
    StartTotals(START0, START1, START2, START3, START4, START5, START6, START7, START8, START9, ones, last);
  }

  lemma StartTotals(r0: seq<nat>, r1: seq<nat>, r2: seq<nat>, r3: seq<nat>, r4: seq<nat>, r5: seq<nat>,
                    r6: seq<nat>, r7: seq<nat>, r8: seq<nat>, r9: seq<nat>, ones: seq<nat>, last: seq<nat>)
    requires Positive(r0) && Positive(r1) && Positive(r2) && Positive(r3) && Positive(r4) && Positive(r5)
    requires Positive(r6) && Positive(r7) && Positive(r8) && Positive(r9) && Positive(ones) && Positive(last)
    ensures var all := r0 + r1 + r2 + r3 + r4 + r5 + r6 + r7 + r8 + r9 + ones + last;
      && Positive(all)
      && Total(all) == Total(r0) + Total(r1) + Total(r2) + Total(r3) + Total(r4) + Total(r5) + Total(r6)
                     + Total(r7) + Total(r8) + Total(r9) + Total(ones) + Total(last)
  {
    FourRows(r0, r1, r2, r3);
    FourRows(r0 + r1 + r2 + r3, r4, r5, r6);
    FourRows(r0 + r1 + r2 + r3 + r4 + r5 + r6, r7, r8, r9);
    FourRows(r0 + r1 + r2 + r3 + r4 + r5 + r6 + r7 + r8 + r9, ones, last, []);
    var all := r0 + r1 + r2 + r3 + r4 + r5 + r6 + r7 + r8 + r9 + ones + last;
    assert all + [] == all;
  }

  // ---------------------------------------------------------------- the table routines

  method MakeCumulative(table: array<nat>, nrows: nat, cumu: array<nat>) returns (last: nat)
    requires nrows <= table.Length && nrows < cumu.Length && table != cumu
    modifies cumu
    ensures nrows > 0 ==> cumu[..nrows + 1] == Cumulative(table[..nrows]) && last == Total(table[..nrows])
    ensures nrows == 0 ==> cumu[..] == old(cumu[..]) && last == cumu[0]  // nothing is cleared then
  {
    var ctr := 0;
    while ctr < nrows
      invariant ctr <= nrows && (nrows == 0 ==> cumu[..] == old(cumu[..]))
      invariant forall i | 0 <= i < ctr :: cumu[i] == 0
    {
      cumu[ctr] := 0;
      ctr := ctr + 1;
    }
    ctr := 0;
    while ctr < nrows
      invariant ctr <= nrows && (nrows == 0 ==> cumu[..] == old(cumu[..]))
      invariant nrows > 0 ==> cumu[..ctr + 1] == Cumulative(table[..ctr])
    {
      assert table[..ctr + 1][..ctr] == table[..ctr];
      cumu[ctr + 1] := cumu[ctr] + table[ctr];
      ctr := ctr + 1;
    }
    return cumu[nrows];
  }

  /** What is left behind the first `k` words, which may be nothing. */
  function Rest(ws: seq<Word>, k: nat): seq<Word> { if k <= |ws| then ws[k..] else [] }

  /** The counting loop of update_fm_ari_model. */
  method CountWords(buffer: array<Word>, start: nat, nwords: nat, symbols: nat, freqtable: array<nat>,
                    ghost counted: seq<Symbol>)
    requires start + nwords <= buffer.Length && freqtable.Length == SPILL
    requires counted == Symbols(Rest(buffer[start..start + nwords], symbols))
    modifies freqtable
    ensures freqtable[..] == Count(old(freqtable[..]), counted)
  {
    ghost var base := freqtable[..];
    var ctr := symbols;
    assert counted[..0] == [];
    assert Count(base, counted[..0]) == base;
    assert |counted| == if symbols <= nwords then nwords - symbols else 0;
    assert forall i | 0 <= i < |counted| :: counted[i] == SymbolOf(buffer[start + symbols + i]);
    hide Count, Symbols, Rest, SymbolOf;
    ghost var k := 0;
    while ctr < nwords
      invariant ctr == symbols + k && k <= |counted|
      invariant freqtable[..] == Count(base, counted[..k])
    {
      CountOne(base, counted, k);
      assert counted[k] == SymbolOf(buffer[start + ctr]);
      CountWord(buffer[start + ctr], freqtable);
      ctr := ctr + 1;
      k := k + 1;
    }
    assert counted[..k] == counted;
  }

  method CountWord(value: Word, freqtable: array<nat>)
    requires freqtable.Length == SPILL
    modifies freqtable
    ensures var x := SymbolOf(value); freqtable[..] == old(freqtable[..])[x := old(freqtable[x]) + 1]
  {
    if value < ROWS {
      freqtable[value] := freqtable[value] + 1;
    } else {
      freqtable[ROWS] := freqtable[ROWS] + 1;
    }
  }

  lemma {:induction false} CountOne(base: seq<nat>, counted: seq<Symbol>, k: nat)
    requires |base| == SPILL && k < |counted|
    ensures var c := Count(base, counted[..k]); Count(base, counted[..k + 1]) == c[counted[k] := c[counted[k]] + 1]
  {
    hide Count;
    assert counted[..k + 1] == counted[..k] + [counted[k]];
    CountSnoc(base, counted[..k], counted[k]);
  }

  lemma {:induction false} CountSnoc(base: seq<nat>, s: seq<Symbol>, x: Symbol)
    requires |base| == SPILL
    ensures var c := Count(base, s); Count(base, s + [x]) == c[x := c[x] + 1]
  {
    var t := s + [x];
    var n := |s|;
    assert t[..n] == s && t[n] == x && |t| - 1 == n;
    assert Count(base, t) == var c := Count(base, t[..n]); c[t[n] := c[t[n]] + 1];
  }

  method UpdateModel(buffer: array<Word>, start: nat, nwords: nat, symbols: nat, initval: nat,
                     freqtable: array<nat>, cptable: array<nat>) returns (probability: nat)
    requires start + nwords <= buffer.Length
    requires freqtable.Length == SPILL && cptable.Length == SPILL + 1 && freqtable != cptable
    modifies freqtable, cptable
    ensures freqtable[..] == Count(seq(SPILL, _ => initval), Symbols(Rest(buffer[start..start + nwords], symbols)))
    ensures cptable[..] == Cumulative(freqtable[..]) && probability == Total(freqtable[..])
  {
    ghost var counted := Symbols(Rest(buffer[start..start + nwords], symbols));
    var ctr := 0;
    while ctr < SPILL
      invariant ctr <= SPILL
      invariant forall i | 0 <= i < ctr :: freqtable[i] == initval
    {
      freqtable[ctr] := initval;
      ctr := ctr + 1;
    }
    assert freqtable[..] == seq(SPILL, _ => initval);
    CountWords(buffer, start, nwords, symbols, freqtable, counted);
    assert freqtable[..SPILL] == freqtable[..] && cptable[..SPILL + 1] == cptable[..];
    probability := MakeCumulative(freqtable, SPILL, cptable);
    assert freqtable[..SPILL] == freqtable[..] && cptable[..SPILL + 1] == cptable[..];
  }
}
