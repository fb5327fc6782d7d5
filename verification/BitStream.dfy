/**
 Writing single bits and bit groups into a 32-bit word buffer (init/demo_net.c, PutBit32 and
 PutNBits32). A C pointer into the buffer is the pair of the array and a word offset `base`.
 */
module BitStream {
  import opened Words

  /** Overwrite `s` at position `p` with `bits`. */
  function Overwrite(s: seq<bool>, p: nat, bits: seq<bool>): (r: seq<bool>)
    requires p + |bits| <= |s|
    ensures |r| == |s|
  {
    s[..p] + bits + s[p + |bits|..]
  }

  /** Clear the bits of `mask` in `w`, then set those of `ins`. */
  function Masked(w: Word, mask: Word, ins: Word): Word {
    OrWord(And(w, Not32(mask)), ins);
    Or(And(w, Not32(mask)), ins)
  }

  lemma BitMasked(w: Word, mask: Word, ins: Word, i: nat)
    requires i < 32
    ensures Bit(Masked(w, mask, ins), i) == ((Bit(w, i) && !Bit(mask, i)) || Bit(ins, i))
  {
    BitOr(And(w, Not32(mask)), ins, i);
    BitAnd(w, Not32(mask), i);
    BitNot32(mask, i);
  }

  lemma BitOfOne(i: nat)
    ensures Bit(1, i) == (i == 0)
  {
    BitOnes(1, i);
    assert Ones(1) == 1;
  }

  /** `w` is `w0` with the low `n` bits of `x` stored in its bits `lo .. lo + n`. */
  ghost predicate HasField(w: Word, w0: Word, x: nat, lo: nat, n: nat) {
    forall i: nat | i < 32 :: Bit(w, i) == if lo <= i < lo + n then Bit(x, i - lo) else Bit(w0, i)
  }

  /** What a field does to the bit at one stream position. */
  lemma {:induction false} FieldBit(was: seq<Word>, k: nat, w: Word, x: nat, lo: nat, n: nat, p: nat)
    requires k < |was| && lo + n <= 32 && HasField(w, was[k], x, lo, n) && p < 32 * |was|
    ensures StreamBit(was[k := w], p)
         == var at := 32 * k + 32 - lo - n; if at <= p < at + n then Msb(x, n)[p - at] else StreamBit(was, p)
  {
    if p / 32 == k {
      var at, i := 32 * k + 32 - lo - n, 31 - p % 32;
      assert Bit(w, i) == if lo <= i < lo + n then Bit(x, i - lo) else Bit(was[k], i);
      if at <= p < at + n { MsbAt(x, n, p - at); }
    }
  }

  /** A field in one word is a run of bits in the stream. */
  lemma {:induction false} FieldInStream(was: seq<Word>, k: nat, w: Word, x: nat, lo: nat, n: nat)
    requires k < |was| && lo + n <= 32 && HasField(w, was[k], x, lo, n)
    ensures Stream(was[k := w]) == Overwrite(Stream(was), 32 * k + 32 - lo - n, Msb(x, n))
  {
    hide StreamBit, HasField, Msb;
    var at := 32 * k + 32 - lo - n;
    forall p: nat | p < 32 * |was|
      ensures Stream(was[k := w])[p] == Overwrite(Stream(was), at, Msb(x, n))[p]
    {
      FieldBit(was, k, w, x, lo, n, p);
    }
  }

  lemma MaskedField(w: Word, mask: Word, ins: Word, x: nat, lo: nat, n: nat)
    requires forall i: nat | i < 32 :: Bit(mask, i) == (lo <= i < lo + n)
    requires forall i: nat | i < 32 :: Bit(ins, i) == (lo <= i < lo + n && Bit(x, i - lo))
    ensures HasField(Masked(w, mask, ins), w, x, lo, n)
  {
    forall i: nat | i < 32
      ensures Bit(Masked(w, mask, ins), i) == if lo <= i < lo + n then Bit(x, i - lo) else Bit(w, i)
    {
      BitMasked(w, mask, ins, i);
    }
  }

  lemma SingleBit(was: seq<Word>, k: nat, bitpos: nat, mask: Word, on: bool)
    requires k < |was| && bitpos < 32 && mask == Shl32(1, 31 - bitpos)
    ensures Stream(was[k := Masked(was[k], mask, if on then mask else 0)])
         == Overwrite(Stream(was), 32 * k + bitpos, [on])
  {
    var j := 31 - bitpos;
    forall i: nat | i < 32 ensures Bit(mask, i) == (i == j) && !Bit(0, i) {
      BitShl32(1, j, i);
      BitOfZero(i);
      if i >= j { BitOfOne(i - j); }
    }
    MaskedField(was[k], mask, if on then mask else 0, if on then 1 else 0, j, 1);
    FieldInStream(was, k, Masked(was[k], mask, if on then mask else 0), if on then 1 else 0, j, 1);
    assert Msb(if on then 1 else 0, 1) == [on];
  }

  method PutBit32(value: Word, bitOffset: nat, dest: array<Word>, base: nat)
    requires base + bitOffset / 32 < dest.Length
    modifies dest
    ensures Stream(dest[..]) == Overwrite(old(Stream(dest[..])), 32 * base + bitOffset, [value == 1])
  {
    var wordpos := base + bitOffset / 32;
    var bitpos := bitOffset % 32;
    var mask: Word := Shl32(1, 31 - bitpos);
    ghost var was := dest[..];
    SingleBit(was, wordpos, bitpos, mask, value == 1);
    var destval: Word := And(dest[wordpos], Not32(mask));
    if value == 1 {
      OrWord(destval, mask);
      destval := Or(destval, mask);
    }
    dest[wordpos] := destval;
    assert dest[..] == was[wordpos := destval];
  }

  /** `0xffffffff >> s` has exactly the low `32 - s` bits set. */
  lemma BitFull(s: nat, i: nat)
    requires s <= 32
    ensures Bit(Shr(0xFFFF_FFFF, s), i) == (i < 32 - s)
  {
    Ones32();
    BitShr(0xFFFF_FFFF, s, i);
    BitOnes(32, i + s);
  }

  /** `value & (0xffffffff >> (32 - nBits))` keeps the low `nBits` bits. */
  lemma FieldOf(value: Word, mask: Word, nBits: nat, i: nat)
    requires 1 <= nBits <= 32 && mask == Shr(0xFFFF_FFFF, 32 - nBits)
    ensures Bit(And(value, mask), i) == (i < nBits && Bit(value, i))
  {
    BitAnd(value, mask, i);
    BitFull(32 - nBits, i);
  }

  /** Shifting a mask of `n` low bits and a value of at most `n` bits into place. */
  lemma ShiftedField(w: Word, m: Word, v: Word, x: nat, s: nat, n: nat)
    requires s + n <= 32
    requires forall i: nat | i < 32 - s :: Bit(m, i) == (i < n)
    requires forall i: nat | i < 32 - s :: Bit(v, i) == (i < n && Bit(x, i))
    ensures HasField(Masked(w, Shl32(m, s), Shl32(v, s)), w, x, s, n)
  {
    forall i: nat | i < 32
      ensures Bit(Shl32(m, s), i) == (s <= i < s + n)
      ensures Bit(Shl32(v, s), i) == (s <= i < s + n && Bit(x, i - s))
    {
      BitShl32(m, s, i);
      BitShl32(v, s, i);
    }
    MaskedField(w, Shl32(m, s), Shl32(v, s), x, s, n);
  }

  lemma Unsegmented(was: seq<Word>, k: nat, value: Word, bitsLeft: nat, nBits: nat, mask: Word, v: Word)
    requires k < |was| && 1 <= nBits <= 32 && bitsLeft + nBits <= 32
    requires mask == Shr(0xFFFF_FFFF, 32 - nBits) && v == And(value, mask)
    ensures Stream(was[k := Masked(was[k], Shl32(mask, 32 - bitsLeft - nBits), Shl32(v, 32 - bitsLeft - nBits))])
         == Overwrite(Stream(was), 32 * k + bitsLeft, Msb(value, nBits))
  {
    var s := 32 - bitsLeft - nBits;
    forall i: nat | i < 32 ensures Bit(mask, i) == (i < nBits) && Bit(v, i) == (i < nBits && Bit(value, i)) {
      BitFull(32 - nBits, i);
      FieldOf(value, mask, nBits, i);
    }
    ShiftedField(was[k], mask, v, value, s, nBits);
    FieldInStream(was, k, Masked(was[k], Shl32(mask, s), Shl32(v, s)), value, s, nBits);
  }

  lemma FirstHalf(was: seq<Word>, k: nat, value: Word, bitsLeft: nat, nBits: nat, mask: Word, v: Word)
    requires k < |was| && 1 <= nBits <= 32 && bitsLeft < 32 < bitsLeft + nBits
    requires mask == Shr(0xFFFF_FFFF, 32 - nBits) && v == And(value, mask)
    ensures Stream(was[k := Masked(was[k], Shr(0xFFFF_FFFF, bitsLeft), Shr(v, bitsLeft + nBits - 32))])
         == Overwrite(Stream(was), 32 * k + bitsLeft, Msb(Shr(value, bitsLeft + nBits - 32), 32 - bitsLeft))
  {
    var n2 := bitsLeft + nBits - 32;
    var m: Word, ins: Word := Shr(0xFFFF_FFFF, bitsLeft), Shr(v, n2);
    forall i: nat | i < 32
      ensures Bit(m, i) == (i < 32 - bitsLeft)
      ensures Bit(ins, i) == (i < 32 - bitsLeft && Bit(Shr(value, n2), i))
    {
      BitFull(bitsLeft, i);
      BitShr(v, n2, i);
      BitShr(value, n2, i);
      FieldOf(value, mask, nBits, i + n2);
    }
    MaskedField(was[k], m, ins, Shr(value, n2), 0, 32 - bitsLeft);
    FieldInStream(was, k, Masked(was[k], m, ins), Shr(value, n2), 0, 32 - bitsLeft);
  }

  lemma SecondHalf(was: seq<Word>, k: nat, value: Word, n2: nat, nBits: nat, mask: Word, v: Word)
    requires k < |was| && 1 <= n2 < nBits <= 32
    requires mask == Shr(0xFFFF_FFFF, 32 - nBits) && v == And(value, mask)
    ensures Stream(was[k := Masked(was[k], Shl32(0xFFFF_FFFF, 32 - n2), Shl32(v, 32 - n2))])
         == Overwrite(Stream(was), 32 * k, Msb(value, n2))
  {
    var full: Word := 0xFFFF_FFFF;
    forall i: nat | i < n2 ensures Bit(full, i) && Bit(v, i) == Bit(value, i) {
      BitFull(0, i);
      FieldOf(value, mask, nBits, i);
    }
    ShiftedField(was[k], full, v, value, 32 - n2, n2);
    FieldInStream(was, k, Masked(was[k], Shl32(full, 32 - n2), Shl32(v, 32 - n2)), value, 32 - n2, n2);
  }

  /** The two halves of a segmented group. */
  lemma {:induction false} MsbSplit(x: nat, n1: nat, n2: nat)
    ensures Msb(x, n1 + n2) == Msb(Shr(x, n2), n1) + Msb(x, n2)
    decreases n2
  {
    if n2 > 0 {
      MsbSplit(x / 2, n1, n2 - 1);
    } else {
      assert Msb(x, 0) == [];
    }
  }

  lemma OverwriteTwice(s: seq<bool>, p: nat, a: seq<bool>, b: seq<bool>)
    requires p + |a| + |b| <= |s|
    ensures Overwrite(Overwrite(s, p, a), p + |a|, b) == Overwrite(s, p, a + b)
  {}

  lemma {:induction false} Segmented(was: seq<Word>, k: nat, value: Word, bitsLeft: nat, nBits: nat, mask: Word,
                                     v: Word)
    requires k + 1 < |was| && 1 <= nBits <= 32 && bitsLeft < 32 < bitsLeft + nBits
    requires mask == Shr(0xFFFF_FFFF, 32 - nBits) && v == And(value, mask)
    ensures Stream((was[k := Masked(was[k], Shr(0xFFFF_FFFF, bitsLeft), Shr(v, bitsLeft + nBits - 32))])
                      [k + 1 := Masked(was[k + 1], Shl32(0xFFFF_FFFF, 64 - bitsLeft - nBits),
                                       Shl32(v, 64 - bitsLeft - nBits))])
         == Overwrite(Stream(was), 32 * k + bitsLeft, Msb(value, nBits))
  {
    hide Msb, Masked, Shr, Shl32, And, Stream, Overwrite;
    var n1, n2 := 32 - bitsLeft, bitsLeft + nBits - 32;
    FirstHalf(was, k, value, bitsLeft, nBits, mask, v);
    var mid := was[k := Masked(was[k], Shr(0xFFFF_FFFF, bitsLeft), Shr(v, n2))];
    SecondHalf(mid, k + 1, value, n2, nBits, mask, v);
    MsbSplit(value, n1, n2);
    OverwriteTwice(Stream(was), 32 * k + bitsLeft, Msb(Shr(value, n2), n1), Msb(value, n2));
  }

  method PutNBits32(value: Word, bitOffset: nat, nBits: nat, dest: array<Word>, base: nat)
    returns (r: nat)
    requires 1 <= nBits <= 32 ==> 32 * base + bitOffset + nBits <= 32 * dest.Length
    modifies dest
    ensures !(1 <= nBits <= 32) ==> r == 0 && dest[..] == old(dest[..])
    ensures 1 <= nBits <= 32 ==> r == nBits
    ensures 1 <= nBits <= 32 ==>
              Stream(dest[..]) == Overwrite(old(Stream(dest[..])), 32 * base + bitOffset, Msb(value, nBits))
  {
    if nBits == 0 { return 0; }
    if nBits > 32 { return 0; }
    var local := base + bitOffset / 32;
    var bitsLeft := bitOffset % 32;
    var shiftRight := 32 - nBits;
    var mask: Word := Shr(0xFFFF_FFFF, shiftRight);
    var v: Word := And(value, mask);
    var localEndPos := bitsLeft + nBits;
    ghost var was := dest[..];
    if localEndPos <= 32 {
      PutUnsegmented(value, mask, v, bitsLeft, nBits, dest, local);
    } else {
      PutSegmented(value, mask, v, bitsLeft, nBits, dest, local);
    }
    return nBits;
  }

  method PutUnsegmented(ghost value: Word, mask: Word, v: Word, bitsLeft: nat, nBits: nat, dest: array<Word>,
                        local: nat)
    requires local < dest.Length && 1 <= nBits <= 32 && bitsLeft + nBits <= 32
    requires mask == Shr(0xFFFF_FFFF, 32 - nBits) && v == And(value, mask)
    modifies dest
    ensures Stream(dest[..]) == Overwrite(old(Stream(dest[..])), 32 * local + bitsLeft, Msb(value, nBits))
  {
    ghost var was := dest[..];
    Unsegmented(was, local, value, bitsLeft, nBits, mask, v);
    var shiftLeft := 32 - nBits - bitsLeft;
    dest[local] := Masked(dest[local], Shl32(mask, shiftLeft), Shl32(v, shiftLeft));
    assert dest[..] == was[local := dest[local]];
  }

  method PutSegmented(ghost value: Word, ghost mask: Word, v: Word, bitsLeft: nat, nBits: nat, dest: array<Word>,
                      local: nat)
    requires local + 1 < dest.Length && 1 <= nBits <= 32 && bitsLeft < 32 < bitsLeft + nBits
    requires mask == Shr(0xFFFF_FFFF, 32 - nBits) && v == And(value, mask)
    modifies dest
    ensures Stream(dest[..]) == Overwrite(old(Stream(dest[..])), 32 * local + bitsLeft, Msb(value, nBits))
  {
    ghost var was := dest[..];
    Segmented(was, local, value, bitsLeft, nBits, mask, v);
    var n2 := bitsLeft + nBits - 32;
    var shiftLeft := 64 - bitsLeft - nBits;
    dest[local] := Masked(dest[local], Shr(0xFFFF_FFFF, bitsLeft), Shr(v, n2));
    dest[local + 1] := Masked(dest[local + 1], Shl32(0xFFFF_FFFF, shiftLeft), Shl32(v, 32 - n2));
    ghost var mid: seq<Word> := was[local := dest[local]];
    assert dest[..] == mid[local + 1 := dest[local + 1]];
  }

  /** Writing the bits of a group one after the other, most significant first. */
  function PutBits(s: seq<bool>, p: nat, bits: seq<bool>): (r: seq<bool>)
    requires p + |bits| <= |s|
    ensures |r| == |s|
    decreases |bits|
  {
    if bits == [] then s else PutBits(Overwrite(s, p, [bits[0]]), p + 1, bits[1..])
  }

  /** PutNBits32 has the effect of `nBits` single-bit writes. */
  lemma {:induction false} GroupIsSingleWrites(s: seq<bool>, p: nat, bits: seq<bool>)
    requires p + |bits| <= |s|
    ensures PutBits(s, p, bits) == Overwrite(s, p, bits)
    decreases |bits|
  {
    if bits != [] {
      GroupIsSingleWrites(Overwrite(s, p, [bits[0]]), p + 1, bits[1..]);
      assert bits == [bits[0]] + bits[1..];
    }
  }
}
