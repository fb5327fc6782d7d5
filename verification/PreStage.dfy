/**
 The two reversible stages before the compressor (init/demo_net.c: Delta32 and Map2Pos32, run one
 after the other by op_decorr_diff), on 32-bit words in two's complement.
 */
module PreStage {
  import opened Words
  import opened ChunkEncoder
  import opened Compressor

  function Add32(a: Word, b: Word): Word { (a + b) % WORD_LIMIT }

  function Sub32(a: Word, b: Word): Word { (a - b) % WORD_LIMIT }

  /** The signed value of a word. */
  function Signed(w: Word): int { if w < 0x8000_0000 then w else w - WORD_LIMIT }

  lemma AddSub(a: Word, b: Word)
    ensures Add32(Sub32(a, b), b) == a && Sub32(Add32(a, b), b) == a
  {}

  lemma Shl32Doubles(x: Word)
    ensures Shl32(x, 1) == 2 * x % WORD_LIMIT
  {
    assert Shl(x, 1) == 2 * Shl(x, 0);
  }

  // ---------------------------------------------------------------- differencing

  function Delta(s: seq<Word>): (d: seq<Word>)
    ensures |d| == |s|
  {
    seq(|s|, i requires 0 <= i < |s| => if i == 0 then s[0] else Sub32(s[i], s[i - 1]))
  }

  /** Each difference, added to the word before, gives the word in 32 bits; the first word stays. */
  lemma DeltaAddsUp(s: seq<Word>, i: nat)
    requires i < |s|
    ensures i == 0 ==> Delta(s)[i] == s[i]
    ensures i > 0 ==> var was: int, diff: int := s[i - 1], Delta(s)[i]; (was + diff) % WORD_LIMIT == s[i]
  {
    if i > 0 { AddSub(s[i], s[i - 1]); }
  }

  /** Running sums. */
  function Undelta(d: seq<Word>): (s: seq<Word>)
    ensures |s| == |d|
  {
    if d == [] then []
    else
      var n := |d| - 1;
      var s := Undelta(d[..n]);
      s + [if n == 0 then d[0] else Add32(d[n], s[n - 1])]
  }

  method Delta32(buf: array<Word>, words: nat)
    requires words <= buf.Length
    modifies buf
    ensures buf[..words] == Delta(old(buf[..words])) && buf[words..] == old(buf[words..])
  {
    if words > 0 {
      var i := words - 1;
      while i > 0
        invariant i < words
        invariant forall j | 0 <= j < buf.Length ::
                    buf[j] == if i < j < words then Sub32(old(buf[j]), old(buf[j - 1])) else old(buf[j])
      {
        buf[i] := Sub32(buf[i], buf[i - 1]);
        i := i - 1;
      }
    }
  }

  lemma {:induction false} UndeltaLast(d: seq<Word>, n: nat, s: seq<Word>)
    requires |d| == n + 1 && Undelta(d[..n]) == s
    ensures |s| == n && Undelta(d) == s + [if n == 0 then d[0] else Add32(d[n], s[n - 1])]
  {}

  lemma {:induction false} UndeltaOfDelta(s: seq<Word>)
    ensures Undelta(Delta(s)) == s
  {
    hide Add32, Sub32, Delta, Undelta;
    if s != [] {
      var n, d := |s| - 1, Delta(s);
      var t := s[..n];
      UndeltaOfDelta(t);
      assert s == t + [s[n]];
      DeltaSnoc(t, s[n]);
      assert d[..n] == Delta(t);
      UndeltaLast(d, n, t);
      if n > 0 { AddSub(s[n], s[n - 1]); }
    } else {
      assert Undelta(Delta([])) == [];
    }
  }

  lemma {:induction false} DeltaOfUndelta(d: seq<Word>)
    ensures Delta(Undelta(d)) == d
  {
    hide Add32, Sub32, Delta, Undelta;
    if d != [] {
      var n := |d| - 1;
      var t := Undelta(d[..n]);
      DeltaOfUndelta(d[..n]);
      UndeltaLast(d, n, t);
      var x := if n == 0 then d[0] else Add32(d[n], t[n - 1]);
      DeltaSnoc(t, x);
      if n > 0 { AddSub(d[n], t[n - 1]); }
      assert d == d[..n] + [d[n]];
    } else {
      assert Delta(Undelta([])) == [];
    }
  }

  lemma DeltaSnoc(t: seq<Word>, x: Word)
    ensures Delta(t + [x]) == Delta(t) + [if t == [] then x else Sub32(x, t[|t| - 1])]
  {
    var s := t + [x];
    assert forall i | 0 <= i < |t| :: s[i] == t[i];
  }

  // ---------------------------------------------------------------- folding

  /** `((0xFFFFFFFF - x) << 1) + 1` for a negative value, `x << 1` otherwise. */
  function Fold(x: Word): Word {
    if Signed(x) < 0 then (2 * (0xFFFF_FFFF - x) + 1) % WORD_LIMIT else 2 * x % WORD_LIMIT
  }

  function Unfold(y: Word): Word { if y % 2 == 1 then 0xFFFF_FFFF - y / 2 else y / 2 }

  /** Folding interleaves: 0, -1, 1, -2, 2, ... become 0, 1, 2, 3, 4, ... */
  lemma FoldInterleaves(x: Word)
    ensures Fold(x) == if Signed(x) < 0 then -2 * Signed(x) - 1 else 2 * Signed(x)
    ensures Unfold(Fold(x)) == x && Fold(Unfold(x)) == x
  {}

  function Folded(s: seq<Word>): (f: seq<Word>)
    ensures |f| == |s| && forall i | 0 <= i < |s| :: f[i] == Fold(s[i])
  {
    seq(|s|, i requires 0 <= i < |s| => Fold(s[i]))
  }

  function Unfolded(s: seq<Word>): (f: seq<Word>)
    ensures |f| == |s| && forall i | 0 <= i < |s| :: f[i] == Unfold(s[i])
  {
    seq(|s|, i requires 0 <= i < |s| => Unfold(s[i]))
  }

  method Map2Pos32(buffer: array<Word>, n: nat)
    requires n <= buffer.Length
    modifies buffer
    ensures buffer[..n] == Folded(old(buffer[..n])) && buffer[n..] == old(buffer[n..])
  {
    var i := 0;
    while i < n
      invariant i <= n
      invariant forall j | 0 <= j < buffer.Length :: buffer[j] == if j < i then Fold(old(buffer[j])) else old(buffer[j])
    {
      Shl32Doubles(0xFFFF_FFFF - buffer[i]);
      Shl32Doubles(buffer[i]);
      if Signed(buffer[i]) < 0 {
        buffer[i] := (Shl32(0xFFFF_FFFF - buffer[i], 1) + 1) % WORD_LIMIT;
      } else {
        buffer[i] := Shl32(buffer[i], 1);
      }
      i := i + 1;
    }
  }

  // ---------------------------------------------------------------- the stage and the whole chain

  function Decorrelated(s: seq<Word>): seq<Word> { Folded(Delta(s)) }

  function Restored(s: seq<Word>): seq<Word> { Undelta(Unfolded(s)) }

  /** The stage is a bijection on 32-bit arrays. */
  lemma DecorrelationIsBijective(s: seq<Word>)
    ensures Restored(Decorrelated(s)) == s
    ensures Decorrelated(Restored(s)) == s
  {
    forall x: Word ensures Unfold(Fold(x)) == x && Fold(Unfold(x)) == x { FoldInterleaves(x); }
    UndeltaOfDelta(s);
    assert Unfolded(Folded(Delta(s))) == Delta(s);
    DeltaOfUndelta(Unfolded(s));
    assert Folded(Unfolded(s)) == s;
  }

  /** op_decorr_diff followed by op_llc_ari1: decompressing and restoring gives the original data. */
  method CompressData(enc: Encoder, source: array<Word>, n: Word, dest: array<Word>, m: Model) returns (size: nat)
    requires m.Valid() && m.spillctr == 0 && Separate(source, dest, m) && n <= source.Length
    requires CompressedWords(Decorrelated(source[..n])) <= dest.Length < WORD_LIMIT
    requires |Spill(Decorrelated(source[..n]))| <= m.spillover.Length
    modifies enc, source, dest, m, m.spillover, m.freqtable, m.cptable
    ensures size == CompressedWords(Decorrelated(old(source[..n])))
    ensures Restored(Decompress(dest[..size])) == old(source[..n])
  {
    hide CompressedWords, Spill, Decompress, Undelta;
    ghost var data := source[..n];
    Delta32(source, n);
    Map2Pos32(source, n);
    size := Compress(enc, source, n, dest, m);
    DecorrelationIsBijective(data);
  }
}
