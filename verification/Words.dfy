/**
 32-bit unsigned words with C's bitwise operators, defined bit by bit over the naturals,
 and the view of a word buffer as one big-endian bit stream.
 */
module Words {
  const WORD_LIMIT: int := 0x1_0000_0000

  type Word = x: int | 0 <= x < 0x1_0000_0000

  // ---------------------------------------------------------------- operators

  /** Bit `i` of `x`, bit 0 being the least significant one. */
  predicate Bit(x: nat, i: nat)
    decreases i
  {
    if i == 0 then x % 2 == 1 else Bit(x / 2, i - 1)
  }

  function And(x: nat, y: nat): (r: nat)
    ensures r <= x && r <= y
  {
    if x == 0 || y == 0 then 0 else 2 * And(x / 2, y / 2) + (if x % 2 == 1 && y % 2 == 1 then 1 else 0)
  }

  function Or(x: nat, y: nat): nat {
    if x == 0 then y else if y == 0 then x
    else 2 * Or(x / 2, y / 2) + (if x % 2 == 1 || y % 2 == 1 then 1 else 0)
  }

  function Shr(x: nat, s: nat): (r: nat)
    ensures r <= x
    decreases s
  {
    if s == 0 then x else Shr(x / 2, s - 1)
  }

  /** Left shift without a width limit; `Shl32` is the C operator. */
  function Shl(x: nat, s: nat): nat {
    if s == 0 then x else 2 * Shl(x, s - 1)
  }

  /** The low `n` bits of `x`. */
  function Low(x: nat, n: nat): nat
    decreases n
  {
    if n == 0 then 0 else 2 * Low(x / 2, n - 1) + x % 2
  }

  function Pow2(k: nat): (p: nat)
    ensures p > 0
  {
    if k == 0 then 1 else 2 * Pow2(k - 1)
  }

  function Ones(n: nat): nat {
    if n == 0 then 0 else 2 * Ones(n - 1) + 1
  }

  function Shl32(x: nat, s: nat): Word { Shl(x, s) % WORD_LIMIT }

  function Not32(x: Word): Word { 0xFFFF_FFFF - x }

  // ---------------------------------------------------------------- their bits

  lemma BitOfZero(i: nat)
    ensures !Bit(0, i)
  {}

  lemma {:induction false} BitAnd(x: nat, y: nat, i: nat)
    ensures Bit(And(x, y), i) == (Bit(x, i) && Bit(y, i))
    decreases i
  {
    BitOfZero(i);
    if x != 0 && y != 0 && i > 0 {
      BitAnd(x / 2, y / 2, i - 1);
      assert And(x, y) / 2 == And(x / 2, y / 2);
    }
  }

  lemma {:induction false} BitOr(x: nat, y: nat, i: nat)
    ensures Bit(Or(x, y), i) == (Bit(x, i) || Bit(y, i))
    decreases i
  {
    BitOfZero(i);
    if x != 0 && y != 0 && i > 0 {
      BitOr(x / 2, y / 2, i - 1);
      assert Or(x, y) / 2 == Or(x / 2, y / 2);
    }
  }

  lemma {:induction false} BitShr(x: nat, s: nat, i: nat)
    ensures Bit(Shr(x, s), i) == Bit(x, i + s)
    decreases s
  {
    if s > 0 {
      BitShr(x / 2, s - 1, i);
    }
  }

  lemma {:induction false} BitShl(x: nat, s: nat, i: nat)
    ensures Bit(Shl(x, s), i) == (i >= s && Bit(x, i - s))
    decreases s
  {
    if s > 0 && i > 0 {
      BitShl(x, s - 1, i - 1);
    }
  }

  lemma {:induction false} BitLow(x: nat, n: nat, i: nat)
    ensures Bit(Low(x, n), i) == (i < n && Bit(x, i))
    decreases n
  {
    hide Low;
    BitOfZero(i);
    LowHalves(x, n);
    if n > 0 && i > 0 {
      BitLow(x / 2, n - 1, i - 1);
    }
  }

  lemma {:induction false} LowHalves(x: nat, n: nat)
    ensures n == 0 ==> Low(x, n) == 0
    ensures n > 0 ==> Low(x, n) == 2 * Low(x / 2, n - 1) + x % 2
    ensures n > 0 ==> Low(x, n) / 2 == Low(x / 2, n - 1) && Low(x, n) % 2 == x % 2
  {}

  lemma {:induction false} BitOnes(n: nat, i: nat)
    ensures Bit(Ones(n), i) == (i < n)
    decreases n
  {
    BitOfZero(i);
    if n > 0 && i > 0 {
      BitOnes(n - 1, i - 1);
    }
  }

  lemma {:induction false} BitComplement(n: nat, x: nat, i: nat)
    requires x <= Ones(n) && i < n
    ensures Bit(Ones(n) - x, i) == !Bit(x, i)
    decreases i
  {
    if i > 0 {
      BitComplement(n - 1, x / 2, i - 1);
      assert (Ones(n) - x) / 2 == Ones(n - 1) - x / 2;
    }
  }

  lemma {:induction false} LowBound(x: nat, n: nat)
    ensures Low(x, n) <= Ones(n)
    ensures x <= Ones(n) ==> Low(x, n) == x
    decreases n
  {
    if n > 0 {
      LowBound(x / 2, n - 1);
    }
  }

  lemma {:induction false} BitBeyond(x: nat, n: nat, i: nat)
    requires x <= Ones(n) && i >= n
    ensures !Bit(x, i)
    decreases n
  {
    if n == 0 { BitOfZero(i); } else { BitBeyond(x / 2, n - 1, i - 1); }
  }

  /** A number is determined by its low `n` bits once all higher ones are clear. */
  lemma {:induction false} BitsDetermine(x: nat, y: nat, n: nat)
    requires x <= Ones(n) && y <= Ones(n)
    requires forall i: nat :: i < n ==> Bit(x, i) == Bit(y, i)
    ensures x == y
    decreases n
  {
    if n > 0 {
      forall i: nat | i < n - 1 ensures Bit(x / 2, i) == Bit(y / 2, i) {
        assert Bit(x, i + 1) == Bit(y, i + 1);
      }
      BitsDetermine(x / 2, y / 2, n - 1);
      assert Bit(x, 0) == Bit(y, 0);
    }
  }

  lemma {:induction false} BoundFromBits(x: nat, n: nat)
    requires forall i: nat :: i >= n ==> !Bit(x, i)
    ensures x <= Ones(n)
    decreases x
  {
    if x > 0 {
      if n == 0 {
        assert x % 2 == 0 by { assert !Bit(x, 0); }
        forall i: nat ensures !Bit(x / 2, i) { assert !Bit(x, i + 1); }
        BoundFromBits(x / 2, 0);
      } else {
        forall i: nat | i >= n - 1 ensures !Bit(x / 2, i) { assert !Bit(x, i + 1); }
        BoundFromBits(x / 2, n - 1);
      }
    }
  }

  lemma Ones32()
    ensures Ones(32) == 0xFFFF_FFFF
  {
    assert Ones(8) == 0xFF;
    assert Ones(16) == 0xFFFF;
    assert Ones(24) == 0xFF_FFFF;
  }

  lemma OrWord(x: Word, y: Word)
    ensures Or(x, y) < WORD_LIMIT
  {
    Ones32();
    forall i: nat | i >= 32 ensures !Bit(Or(x, y), i) {
      BitOr(x, y, i); BitBeyond(x, 32, i); BitBeyond(y, 32, i);
    }
    BoundFromBits(Or(x, y), 32);
  }

  lemma {:induction false} LowIsRemainder(x: nat, n: nat)
    ensures Low(x, n) == x % (Ones(n) + 1)
    decreases n
  {
    LowHalves(x, n);
    hide Low;
    if n > 0 {
      LowIsRemainder(x / 2, n - 1);
      var m := Ones(n - 1) + 1;
      assert Ones(n) + 1 == 2 * m;
      hide Ones;
      RemainderDouble(x, m);
    }
  }

  lemma RemainderDouble(x: nat, m: nat)
    requires m > 0
    ensures x % (2 * m) == 2 * (x / 2 % m) + x % 2
  {
    var q, r := x / 2 / m, x / 2 % m;
    assert x / 2 == q * m + r;
    assert q * (2 * m) == 2 * (q * m);
    RemainderIs(x, 2 * m, q, 2 * r + x % 2);
  }

  lemma RemainderIs(x: nat, m: nat, q: nat, r: nat)
    requires x == q * m + r && r < m
    ensures x % m == r && x / m == q
  {
    assert (x / m - q) * m == r - x % m;
    SmallMultiple(x / m - q, m);
  }

  lemma SmallMultiple(d: int, m: int)
    requires -m < d * m < m
    ensures d == 0
  {
    assert d >= 1 ==> d * m >= m;
    assert d <= -1 ==> d * m <= -m;
  }

  lemma BitNot32(x: Word, i: nat)
    requires i < 32
    ensures Bit(Not32(x), i) == !Bit(x, i)
  {
    Ones32();
    BitComplement(32, x, i);
  }

  lemma BitShl32(x: nat, s: nat, i: nat)
    ensures Bit(Shl32(x, s), i) == (s <= i < 32 && Bit(x, i - s))
  {
    Ones32();
    LowIsRemainder(Shl(x, s), 32);
    BitLow(Shl(x, s), 32, i);
    BitShl(x, s, i);
  }

  /** The number of bits up to and including the highest one set (fls). */
  function Length(x: nat): nat { if x == 0 then 0 else 1 + Length(x / 2) }

  /** `Length` is the least width a number fits in. */
  lemma {:induction false} LengthFits(x: nat, n: nat)
    ensures Length(x) <= n <==> x <= Ones(n)
    decreases n
  {
    if x != 0 && n != 0 { LengthFits(x / 2, n - 1); }
  }

  lemma {:induction false} OnesIsPow2(n: nat)
    ensures Ones(n) == Pow2(n) - 1
  {
    if n > 0 { OnesIsPow2(n - 1); }
  }

  // ---------------------------------------------------------------- masks used on 16-bit values

  lemma {:induction false} TopBit(x: nat, k: nat)
    requires x < 2 * Pow2(k)
    ensures Bit(x, k) == (x >= Pow2(k))
    ensures Bit(x + 2 * Pow2(k), k) == Bit(x, k)
    decreases k
  {
    if k > 0 {
      TopBit(x / 2, k - 1);
      assert (x + 2 * Pow2(k)) / 2 == x / 2 + 2 * Pow2(k - 1);
    }
  }

  lemma {:induction false} AndBit(x: nat, k: nat)
    ensures And(x, Pow2(k)) == if Bit(x, k) then Pow2(k) else 0
    decreases k
  {
    BitOfZero(k);
    if x != 0 && k > 0 {
      AndBit(x / 2, k - 1);
    }
  }

  lemma {:induction false} OrBit(x: nat, k: nat)
    requires !Bit(x, k)
    ensures Or(x, Pow2(k)) == x + Pow2(k)
    decreases k
  {
    if x != 0 && k > 0 {
      OrBit(x / 2, k - 1);
    }
  }

  lemma {:induction false} AndOnes(x: nat, n: nat)
    ensures And(x, Ones(n)) == Low(x, n)
    decreases n
  {
    if x != 0 && n > 0 {
      AndOnes(x / 2, n - 1);
    } else if n > 0 {
      LowBound(0, n);
    }
  }

  lemma {:induction false} ShrPow2(k: nat)
    ensures Shr(Pow2(k), k) == 1 && Shr(0, k) == 0
    decreases k
  {
    if k > 0 {
      ShrPow2(k - 1);
    }
  }

  lemma Masks16()
    ensures Pow2(14) == 0x4000 && Pow2(15) == 0x8000 && Pow2(16) == 0x10000
    ensures Ones(14) == 0x3fff && Ones(16) == 0xffff
  {
    assert Pow2(8) == 0x100 && Ones(8) == 0xff;
  }

  /** Testing one bit: `(x & m) >> k` and `(~x & m) >> k` for the mask `m` of bit `k`. */
  lemma TestBit(x: Word, k: nat, m: nat)
    requires k < 32 && m == Pow2(k)
    ensures And(x, m) == if Bit(x, k) then m else 0
    ensures Shr(And(x, m), k) == if Bit(x, k) then 1 else 0
    ensures Shr(And(Not32(x), m), k) == if Bit(x, k) then 0 else 1
  {
    AndBit(x, k);
    AndBit(Not32(x), k);
    BitNot32(x, k);
    ShrPow2(k);
  }

  lemma Bit15(x: Word)
    requires x <= 0xffff
    ensures And(x, 0x8000) == if x >= 0x8000 then 0x8000 else 0
    ensures Shr(And(x, 0x8000), 15) == if x >= 0x8000 then 1 else 0
    ensures Shr(And(Not32(x), 0x8000), 15) == if x >= 0x8000 then 0 else 1
  {
    Masks16();
    TopBit(x, 15);
    TestBit(x, 15, 0x8000);
  }

  lemma SecondBit(x: nat, k: nat)
    requires x < 4 * Pow2(k)
    ensures Bit(x, k) == (Pow2(k) <= x < 2 * Pow2(k) || 3 * Pow2(k) <= x)
  {
    if x < 2 * Pow2(k) { TopBit(x, k); } else { TopBit(x - 2 * Pow2(k), k); }
  }

  lemma Bit14(x: Word)
    requires x <= 0xffff
    ensures And(x, 0x4000) == if 0x4000 <= x < 0x8000 || 0xc000 <= x then 0x4000 else 0
    ensures Shr(And(x, 0x4000), 14) == if 0x4000 <= x < 0x8000 || 0xc000 <= x then 1 else 0
    ensures Shr(And(Not32(x), 0x4000), 14) == if 0x4000 <= x < 0x8000 || 0xc000 <= x then 0 else 1
  {
    Masks16();
    SecondBit(x, 14);
    TestBit(x, 14, 0x4000);
  }

  /** `x | 0x4000` when that bit is clear. */
  lemma SetBit14(x: Word)
    requires 0x8000 <= x < 0xc000
    ensures Or(x, 0x4000) == x + 0x4000
  {
    Masks16();
    SecondBit(x, 14);
    OrBit(x, 14);
  }

  lemma LowMasks(x: nat)
    ensures And(x, 0x3fff) == x % 0x4000
    ensures And(x, 0xffff) == x % 0x10000
  {
    Masks16();
    AndOnes(x, 14);
    LowIsRemainder(x, 14);
    AndOnes(x, 16);
    LowIsRemainder(x, 16);
  }

  // ---------------------------------------------------------------- bit streams

  /** Bit `p` of a buffer read as one big-endian stream: word `p / 32`, most significant bit first. */
  predicate StreamBit(ws: seq<Word>, p: nat)
    requires p < 32 * |ws|
  {
    Bit(ws[p / 32], 31 - p % 32)
  }

  function Stream(ws: seq<Word>): (s: seq<bool>)
    ensures |s| == 32 * |ws|
  {
    seq(32 * |ws|, p requires 0 <= p < 32 * |ws| => StreamBit(ws, p))
  }

  /** The low `n` bits of `x`, most significant first. */
  function Msb(x: nat, n: nat): (s: seq<bool>)
    ensures |s| == n
    decreases n
  {
    if n == 0 then [] else Msb(x / 2, n - 1) + [x % 2 == 1]
  }

  lemma {:induction false} MsbAt(x: nat, n: nat, i: nat)
    requires i < n
    ensures Msb(x, n)[i] == Bit(x, n - 1 - i)
    decreases n
  {
    if i < n - 1 {
      MsbAt(x / 2, n - 1, i);
    }
  }

  /** Concatenation is associative; stated once to keep the operands abstract. */
  lemma Regroup<T>(a: seq<T>, b: seq<T>, c: seq<T>)
    ensures a + b + c == a + (b + c)
  {}

  lemma StreamSplit(ws: seq<Word>, k: nat)
    requires k <= |ws|
    ensures Stream(ws[k..]) == Stream(ws)[32 * k..]
    ensures Stream(ws[..k]) == Stream(ws)[..32 * k]
  {
    forall p: nat | p < 32 * (|ws| - k)
      ensures Stream(ws[k..])[p] == Stream(ws)[32 * k..][p]
    {
      assert (32 * k + p) / 32 == k + p / 32 && (32 * k + p) % 32 == p % 32;
    }
  }

  /** Words are determined by their stretch of the stream. */
  lemma StreamDetermines(a: seq<Word>, b: seq<Word>, k: nat)
    requires k <= |a| && k <= |b| && Stream(a)[..32 * k] == Stream(b)[..32 * k]
    ensures a[..k] == b[..k]
  {
    Ones32();
    forall j | 0 <= j < k ensures a[j] == b[j] {
      forall i: nat | i < 32 ensures Bit(a[j], i) == Bit(b[j], i) {
        var p := 32 * j + 31 - i;
        assert p / 32 == j && p % 32 == 31 - i;
        assert Stream(a)[..32 * k][p] == Stream(b)[..32 * k][p];
      }
      BitsDetermine(a[j], b[j], 32);
    }
  }

  // ---------------------------------------------------------------- reading a stream

  /** Streams are read as if followed by zeros. */
  predicate At(s: seq<bool>, i: nat) { i < |s| && s[i] }

  function Drop(s: seq<bool>, k: nat): seq<bool> { if k <= |s| then s[k..] else [] }

  /** The number in the first `k` bits. */
  function Window(s: seq<bool>, k: nat): nat {
    if k == 0 then 0 else 2 * Window(s, k - 1) + (if At(s, k - 1) then 1 else 0)
  }

  lemma {:induction false} WindowCons(b: bool, s: seq<bool>, k: nat)
    ensures Window([b] + s, k + 1) == (if b then Pow2(k) else 0) + Window(s, k)
    decreases k
  {
    if k > 0 {
      WindowCons(b, s, k - 1);
      assert At([b] + s, k) == At(s, k - 1);
    } else {
      assert Window([b] + s, 0) == 0;
    }
  }

  lemma {:induction false} WindowBound(s: seq<bool>, k: nat)
    ensures Window(s, k) < Pow2(k)
  {
    if k > 0 { WindowBound(s, k - 1); }
  }

  /** `bits` occur in `s` at position `p`. */
  predicate Holds(s: seq<bool>, p: nat, bits: seq<bool>) {
    p + |bits| <= |s| && forall i | 0 <= i < |bits| :: s[p + i] == bits[i]
  }

  lemma HoldsConcat(s: seq<bool>, p: nat, a: seq<bool>, b: seq<bool>)
    ensures Holds(s, p, a + b) <==> Holds(s, p, a) && Holds(s, p + |a|, b)
  {
    if Holds(s, p, a + b) {
      forall i | 0 <= i < |a| ensures s[p + i] == a[i] { assert (a + b)[i] == a[i]; }
      forall i | 0 <= i < |b| ensures s[p + |a| + i] == b[i] { assert (a + b)[|a| + i] == b[i]; }
    }
  }

  /** The number in the `k` bits from position `p` on. */
  function Number(s: seq<bool>, p: nat, k: nat): nat {
    if k == 0 then 0 else 2 * Number(s, p, k - 1) + (if At(s, p + k - 1) then 1 else 0)
  }

  lemma {:induction false} NumberOfMsb(s: seq<bool>, p: nat, x: nat, n: nat)
    requires Holds(s, p, Msb(x, n)) && x <= Ones(n)
    ensures Number(s, p, n) == x
    decreases n
  {
    if n > 0 {
      HoldsConcat(s, p, Msb(x / 2, n - 1), [x % 2 == 1]);
      NumberOfMsb(s, p, x / 2, n - 1);
      assert s[p + n - 1 + 0] == [x % 2 == 1][0];
    }
  }
}
