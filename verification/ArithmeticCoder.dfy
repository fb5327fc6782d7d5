/**
 The 16-bit arithmetic coder of init/demo_net.c as functions on bit strings, a decoder for it,
 and the proof that decoding undoes coding whatever bits follow the code.
 */
module ArithmeticCoder {
  import opened AriModel
  import opened Words

  /** The coding interval fm_ari_low .. fm_ari_high, both ends included. */
  datatype Range = Range(lo: int, hi: int) {
    predicate Valid() { 0 <= lo <= hi <= 0xffff }

    function Width(): int { hi - lo + 1 }

    /** No top bit in common, and not about to underflow: the state between two symbols. */
    predicate Normal() { Valid() && lo < 0x8000 <= hi && (lo < 0x4000 || 0xc000 <= hi) }

    /** Both ends lie in the middle half: an underflow is pending. */
    predicate Straddles() { Valid() && 0x4000 <= lo < 0x8000 <= hi < 0xc000 }

    predicate Contains(x: int) { lo <= x <= hi }
  }

  const FULL: Range := Range(0, 0xffff)

  // ---------------------------------------------------------------- one symbol

  /** The end point `(cp * width) >> 13`. */
  function Cut(width: int, cp: nat): int
    requires width >= 0
  {
    cp * width / MAXFREQ
  }

  lemma CutGrows(width: int, a: nat, b: nat)
    requires MAXFREQ <= width && a < b
    ensures Cut(width, a) < Cut(width, b)
  {
    assert b * width >= (a + 1) * width == a * width + width;
  }

  lemma {:induction false} CutMonotone(cp: seq<nat>, width: int, i: nat, j: nat)
    requires ValidTotals(cp) && MAXFREQ <= width && i <= j <= SPILL
    ensures 0 <= Cut(width, cp[i]) <= Cut(width, cp[j]) <= width
    ensures i < j ==> Cut(width, cp[i]) < Cut(width, cp[j])
    decreases SPILL - i
  {
    if i < j {
      CutGrows(width, cp[i], cp[i + 1]);
      CutMonotone(cp, width, i + 1, j);
    } else if i < SPILL {
      CutGrows(width, cp[i], cp[i + 1]);
      CutMonotone(cp, width, i + 1, SPILL);
    }
  }

  /** The interval of symbol `s` inside `r`. */
  function Narrow(cp: seq<nat>, r: Range, s: Symbol): (n: Range)
    requires ValidTotals(cp) && r.Normal()
    ensures n.Valid() && r.lo <= n.lo && n.hi <= r.hi
  {
    CutMonotone(cp, r.Width(), s, s + 1);
    Range(r.lo + Cut(r.Width(), cp[s]), r.lo + Cut(r.Width(), cp[s + 1]) - 1)
  }

  /** A symbol's share of the interval is that of its frequency in 8192, its ends rounded down. */
  lemma NarrowScales(cp: seq<nat>, r: Range, s: Symbol)
    requires ValidTotals(cp) && r.Normal()
    ensures var n, w := Narrow(cp, r, s), r.hi - r.lo + 1;
            && 8192 * (n.lo - r.lo) <= w * cp[s] < 8192 * (n.lo - r.lo + 1)
            && 8192 * (n.hi + 1 - r.lo) <= w * cp[s + 1] < 8192 * (n.hi + 2 - r.lo)
  {
    var w := r.Width();
    assert cp[s] * w == w * cp[s] && cp[s + 1] * w == w * cp[s + 1];
  }

  /** The symbols' intervals partition the current one: each point belongs to exactly one symbol. */
  lemma NarrowPartitions(cp: seq<nat>, r: Range, x: int)
    requires ValidTotals(cp) && r.Normal() && r.Contains(x)
    ensures exists s: Symbol :: Narrow(cp, r, s).Contains(x)
    ensures forall s: Symbol, t: Symbol | Narrow(cp, r, s).Contains(x) && Narrow(cp, r, t).Contains(x) :: s == t
  {
    forall a: Symbol, b: Symbol | Narrow(cp, r, a).Contains(x) && Narrow(cp, r, b).Contains(x)
      ensures a == b
    {
      LookupFinds(cp, r, x, 0, a);
      LookupFinds(cp, r, x, 0, b);
    }
    LookupContains(cp, r, x, 0);
  }

  /** How far a renormalisation step moves the interval before doubling it. */
  function Offset(r: Range): int
    requires r.Valid() && !r.Normal()
  {
    if r.hi < 0x8000 then 0 else if 0x8000 <= r.lo then 0x8000 else 0x4000
  }

  /** One turn of the renormalisation loop; the width doubles. */
  function Zoom(r: Range): (z: Range)
    requires r.Valid() && !r.Normal()
    ensures z.Valid() && z.Width() == 2 * r.Width()
  {
    Range(2 * (r.lo - Offset(r)), 2 * (r.hi - Offset(r)) + 1)
  }

  /** The state the renormalisation loop ends in: always wide enough for the next symbol. */
  function Settle(r: Range): (n: Range)
    requires r.Valid()
    ensures n.Normal() && n.Width() > 0x4000
    decreases 0x10000 - r.Width()
  {
    if r.Normal() then r else Settle(Zoom(r))
  }

  // ---------------------------------------------------------------- the code

  /** fmari_flushEncoder with no underflow pending. */
  function Flush(r: Range): seq<bool> { [0x4000 <= r.lo, r.lo < 0x4000] }

  /** The bits for `syms` and the flush, from a normal state with no underflow pending. */
  function Code(cp: seq<nat>, r: Range, syms: seq<Symbol>): (s: seq<bool>)
    requires ValidTotals(cp) && r.Normal()
    ensures |s| >= 2
    decreases |syms|, 0
  {
    if syms == [] then Flush(r) else Emit(cp, Narrow(cp, r, syms[0]), syms[1..])
  }

  /** The same from any state; an underflow step puts the opposite bit behind the first one to come. */
  function Emit(cp: seq<nat>, r: Range, syms: seq<Symbol>): (s: seq<bool>)
    requires ValidTotals(cp) && r.Valid()
    ensures |s| >= 2
    decreases |syms|, 0x10001 - r.Width()
  {
    if r.Normal() then Code(cp, r, syms)
    else
      var s := Emit(cp, Zoom(r), syms);
      if r.Straddles() then [s[0], !s[0]] + s[1..] else [0x8000 <= r.lo] + s
  }

  /** A symbol takes at most 16 bits, the flush takes 2. */
  lemma {:induction false} CodeLength(cp: seq<nat>, r: Range, syms: seq<Symbol>, bits: nat)
    requires ValidTotals(cp) && r.Normal() && bits == 16
    ensures |Code(cp, r, syms)| <= bits * |syms| + 2
    decreases |syms|, 0
  {
    if syms != [] {
      Masks16();
      var n := Narrow(cp, r, syms[0]);
      assert n.Width() * Pow2(bits) >= Pow2(bits);
      EmitLength(cp, n, syms[1..], bits, bits);
      assert bits * |syms| == bits * |syms[1..]| + bits;
    }
  }

  /** Doubling `k` times is enough: an interval wider than half of all is normal. */
  lemma {:induction false} EmitLength(cp: seq<nat>, r: Range, syms: seq<Symbol>, bits: nat, k: nat)
    requires ValidTotals(cp) && r.Valid() && bits == 16 && r.Width() * Pow2(k) > 0x8000
    ensures |Emit(cp, r, syms)| <= bits * |syms| + 2 + k
    decreases |syms|, 1 + k
  {
    if r.Normal() {
      CodeLength(cp, r, syms, bits);
    } else {
      assert k > 0;
      assert Zoom(r).Width() * Pow2(k - 1) == r.Width() * Pow2(k);
      EmitLength(cp, Zoom(r), syms, bits, k - 1);
    }
  }

  function Repeat(b: bool, n: nat): (s: seq<bool>)
    ensures |s| == n
  {
    if n == 0 then [] else Repeat(b, n - 1) + [b]
  }

  /** With `u` underflows pending the first bit is followed by `u` opposite ones. */
  function Pending(u: nat, s: seq<bool>): seq<bool>
    requires s != []
  {
    [s[0]] + Repeat(!s[0], u) + s[1..]
  }

  /** Counting an underflow and inserting its bit later comes to the same stream. */
  lemma PendingStep(u: nat, s: seq<bool>)
    requires s != []
    ensures Pending(u, [s[0], !s[0]] + s[1..]) == Pending(u + 1, s)
  {
    var t := [s[0], !s[0]] + s[1..];
    assert t[1..] == [!s[0]] + s[1..];
  }

  // ---------------------------------------------------------------- windows on a stream

  /** How the 16-bit window moves when one bit is taken out at the front. */
  lemma WindowStep(b: bool, s: seq<bool>)
    ensures Window(s, 16) == 2 * (Window([b] + s, 16) - (if b then 0x8000 else 0)) + (if At([b] + s, 16) then 1 else 0)
    ensures Drop([b] + s, 17) == Drop(s, 16)
  {
    Masks16();
    WindowCons(b, s, 15);
    assert At([b] + s, 16) == At(s, 15);
  }

  /** How it moves when the second, opposite bit is taken out. */
  lemma WindowStraddle(b: bool, t: seq<bool>)
    ensures Window([b] + t, 16)
         == 2 * (Window([b, !b] + t, 16) - 0x4000) + (if At([b, !b] + t, 16) then 1 else 0)
    ensures Drop([b, !b] + t, 17) == Drop([b] + t, 16)
  {
    Masks16();
    hide Window, At;
    StraddleAt(b, t, 14);
  }

  lemma {:induction false} StraddleAt(b: bool, t: seq<bool>, n: nat)
    ensures var p := [b, !b] + t;
            Window([b] + t, n + 2) == 2 * (Window(p, n + 2) - Pow2(n)) + (if At(p, n + 2) then 1 else 0)
  {
    assert [b, !b] + t == [b] + ([!b] + t);
    WindowCons(b, [!b] + t, n + 1);
    WindowCons(!b, t, n);
    WindowCons(b, t, n + 1);
    assert Window(t, n + 1) == 2 * Window(t, n) + (if At(t, n) then 1 else 0);
    assert At([b, !b] + t, n + 2) == At(t, n);
    assert Pow2(n + 1) == 2 * Pow2(n);
  }

  /** One renormalisation turn seen from the window. */
  lemma ZoomWindow(cp: seq<nat>, r: Range, syms: seq<Symbol>, tail: seq<bool>)
    requires ValidTotals(cp) && r.Valid() && !r.Normal()
    ensures var p := Emit(cp, r, syms) + tail;
            var s := Emit(cp, Zoom(r), syms) + tail;
            && Window(s, 16) == 2 * (Window(p, 16) - Offset(r)) + (if At(p, 16) then 1 else 0)
            && Drop(p, 17) == Drop(s, 16)
  {
    var s := Emit(cp, Zoom(r), syms);
    if r.Straddles() {
      assert [s[0], !s[0]] + s[1..] + tail == [s[0], !s[0]] + (s[1..] + tail);
      assert s + tail == [s[0]] + (s[1..] + tail);
      WindowStraddle(s[0], s[1..] + tail);
    } else {
      var b := 0x8000 <= r.lo;
      assert [b] + s + tail == [b] + (s + tail);
      WindowStep(b, s + tail);
    }
  }

  lemma FlushInRange(r: Range, tail: seq<bool>)
    requires r.Normal()
    ensures r.Contains(Window(Flush(r) + tail, 16))
  {
    Masks16();
    var a, b := 0x4000 <= r.lo, r.lo < 0x4000;
    assert Flush(r) + tail == [a] + ([b] + tail);
    WindowCons(a, [b] + tail, 15);
    WindowCons(b, tail, 14);
    WindowBound(tail, 14);
  }

  /** Whatever follows the code, its first 16 bits stay inside the coding interval. */
  lemma {:induction false} CodeInRange(cp: seq<nat>, r: Range, syms: seq<Symbol>, tail: seq<bool>)
    requires ValidTotals(cp) && r.Normal()
    ensures r.Contains(Window(Code(cp, r, syms) + tail, 16))
    decreases |syms|, 0
  {
    if syms == [] {
      FlushInRange(r, tail);
    } else {
      EmitInRange(cp, Narrow(cp, r, syms[0]), syms[1..], tail);
    }
  }

  lemma {:induction false} EmitInRange(cp: seq<nat>, r: Range, syms: seq<Symbol>, tail: seq<bool>)
    requires ValidTotals(cp) && r.Valid()
    ensures r.Contains(Window(Emit(cp, r, syms) + tail, 16))
    decreases |syms|, 0x10001 - r.Width()
  {
    if r.Normal() {
      CodeInRange(cp, r, syms, tail);
    } else {
      EmitInRange(cp, Zoom(r), syms, tail);
      ZoomWindow(cp, r, syms, tail);
    }
  }

  // ---------------------------------------------------------------- the decoder

  /** A decoder's state: the interval, the 16-bit code register and the unread bits. */
  datatype Decoder = Decoder(r: Range, code: int, rest: seq<bool>)

  function Start(bits: seq<bool>): Decoder { Decoder(FULL, Window(bits, 16), Drop(bits, 16)) }

  /** Renormalise, shifting unread bits into the register. */
  function Refill(d: Decoder): (e: Decoder)
    requires d.r.Valid()
    ensures e.r.Normal()
    decreases 0x10000 - d.r.Width()
  {
    if d.r.Normal() then d
    else Refill(Decoder(Zoom(d.r), 2 * (d.code - Offset(d.r)) + (if At(d.rest, 0) then 1 else 0), Drop(d.rest, 1)))
  }

  /** The first symbol from `s` on whose interval does not end below `code`. */
  function Lookup(cp: seq<nat>, r: Range, code: int, s: Symbol): Symbol
    requires ValidTotals(cp) && r.Normal()
    decreases ROWS - s
  {
    if s == ROWS || code <= Narrow(cp, r, s).hi then s else Lookup(cp, r, code, s + 1)
  }

  function Decode(cp: seq<nat>, d: Decoder, n: nat): (s: seq<Symbol>)
    requires ValidTotals(cp) && d.r.Normal()
    ensures |s| == n
    decreases n
  {
    if n == 0 then []
    else
      var s := Lookup(cp, d.r, d.code, 0);
      [s] + Decode(cp, Refill(d.(r := Narrow(cp, d.r, s))), n - 1)
  }

  lemma {:induction false} LookupFinds(cp: seq<nat>, r: Range, code: int, from: Symbol, s: Symbol)
    requires ValidTotals(cp) && r.Normal() && from <= s && Narrow(cp, r, s).Contains(code)
    ensures Lookup(cp, r, code, from) == s
    decreases ROWS - from
  {
    CutMonotone(cp, r.Width(), from, s);
    if from < s {
      CutMonotone(cp, r.Width(), from + 1, s);
      LookupFinds(cp, r, code, from + 1, s);
    }
  }

  lemma {:induction false} LookupContains(cp: seq<nat>, r: Range, code: int, from: Symbol)
    requires ValidTotals(cp) && r.Normal() && r.Contains(code)
    requires r.lo + Cut(r.Width(), cp[from]) <= code
    ensures Narrow(cp, r, Lookup(cp, r, code, from)).Contains(code)
    decreases ROWS - from
  {
    if from < ROWS && Narrow(cp, r, from).hi < code {
      LookupContains(cp, r, code, from + 1);
    }
  }

  lemma {:induction false} RefillFollows(cp: seq<nat>, r: Range, syms: seq<Symbol>, tail: seq<bool>)
    requires ValidTotals(cp) && r.Valid()
    ensures var p := Emit(cp, r, syms) + tail;
            var s := Code(cp, Settle(r), syms) + tail;
            Refill(Decoder(r, Window(p, 16), Drop(p, 16))) == Decoder(Settle(r), Window(s, 16), Drop(s, 16))
    decreases 0x10000 - r.Width()
  {
    if !r.Normal() {
      var p := Emit(cp, r, syms) + tail;
      ZoomWindow(cp, r, syms, tail);
      assert At(Drop(p, 16), 0) == At(p, 16);
      assert Drop(Drop(p, 16), 1) == Drop(p, 17);
      RefillFollows(cp, Zoom(r), syms, tail);
    }
  }

  lemma {:induction false} DecodeFollows(cp: seq<nat>, r: Range, syms: seq<Symbol>, tail: seq<bool>, n: nat)
    requires ValidTotals(cp) && r.Normal() && n == |syms|
    ensures var s := Code(cp, r, syms) + tail;
            Decode(cp, Decoder(r, Window(s, 16), Drop(s, 16)), n) == syms
    decreases n
  {
    hide Emit, Window, Settle, Narrow, Lookup;
    if n > 0 {
      var m := Narrow(cp, r, syms[0]);
      EmitInRange(cp, m, syms[1..], tail);
      LookupFinds(cp, r, Window(Code(cp, r, syms) + tail, 16), 0, syms[0]);
      RefillFollows(cp, m, syms[1..], tail);
      DecodeFollows(cp, Settle(m), syms[1..], tail, n - 1);
    }
  }

  /** The code of a chunk, with any bits behind it, decodes to the chunk. */
  lemma DecodeUndoesCode(cp: seq<nat>, syms: seq<Symbol>, tail: seq<bool>)
    requires ValidTotals(cp)
    ensures Decode(cp, Start(Code(cp, FULL, syms) + tail), |syms|) == syms
  {
    DecodeFollows(cp, FULL, syms, tail, |syms|);
  }
}
