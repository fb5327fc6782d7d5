/**
 memmove of lib/string.c on a memory of bytes, addressed from 0. A word is `WORD` bytes; loads and stores
 of words take aligned addresses only.
 */
module Memmove {
  type Byte = b | 0 <= b < 256

  const WORD: nat := 4  // sizeof(int)

  /** `m` is `o` with the bytes at `from .. to` taken from `shift` further up (or down) in `o`. */
  ghost predicate Shifted(m: seq<Byte>, o: seq<Byte>, from: int, to: int, shift: int) {
    && |m| == |o| && 0 <= from <= to <= |o| && (from < to ==> 0 <= from + shift && to + shift <= |o|)
    && (forall i | 0 <= i < |o| && !(from <= i < to) :: m[i] == o[i])
    && (forall i | from <= i < to :: m[i] == o[i + shift])
  }

  /** One word-sized load and store. */
  method CopyWord(mem: array<Byte>, d: nat, s: nat)
    requires d % WORD == 0 && s % WORD == 0 && d + WORD <= mem.Length && s + WORD <= mem.Length
    modifies mem
    ensures Shifted(mem[..], old(mem[..]), d, d + WORD, s - d)
  {
    var b0, b1, b2, b3 := mem[s], mem[s + 1], mem[s + 2], mem[s + 3];
    mem[d], mem[d + 1], mem[d + 2], mem[d + 3] := b0, b1, b2, b3;
  }

  /** Ascending, the bytes still to be read are untouched when the source is above. */
  lemma ShiftUp(o: seq<Byte>, m: seq<Byte>, m': seq<Byte>, from: int, mid: int, to: int, shift: int)
    requires Shifted(m, o, from, mid, shift) && Shifted(m', m, mid, to, shift) && shift > 0
    ensures Shifted(m', o, from, to, shift)
  {
    forall i | from <= i < to ensures m'[i] == o[i + shift] {
      assert if i < mid then m'[i] == m[i] else m'[i] == m[i + shift] == o[i + shift];
    }
    forall i | 0 <= i < |o| && !(from <= i < to) ensures m'[i] == o[i] {
      assert m'[i] == m[i];
    }
  }

  /** Descending, when it is below. */
  lemma ShiftDown(o: seq<Byte>, m: seq<Byte>, m': seq<Byte>, from: int, mid: int, to: int, shift: int)
    requires Shifted(m, o, mid, to, shift) && Shifted(m', m, from, mid, shift) && shift < 0
    ensures Shifted(m', o, from, to, shift)
  {
    forall i | from <= i < to ensures m'[i] == o[i + shift] {
      assert if i < mid then m'[i] == m[i + shift] == o[i + shift] else m'[i] == m[i];
    }
    forall i | 0 <= i < |o| && !(from <= i < to) ensures m'[i] == o[i] {
      assert m'[i] == m[i];
    }
  }

  /** Nothing done yet. */
  lemma Unshifted(o: seq<Byte>, at: int, shift: int)
    requires 0 <= at <= |o|
    ensures Shifted(o, o, at, at, shift)
  {}

  /** A byte-wise loop that ascends from `d`; the bytes from `from` on are done already. */
  method BytesUp(mem: array<Byte>, d0: nat, s0: nat, c: nat, ghost o: seq<Byte>, ghost from: nat)
    requires from <= d0 < s0 && s0 + c <= mem.Length && Shifted(mem[..], o, from, d0, s0 - d0)
    modifies mem
    ensures Shifted(mem[..], o, from, d0 + c, s0 - d0)
  {
    var d, s := d0, s0;
    while d < d0 + c
      invariant d0 <= d <= d0 + c && s == d + (s0 - d0) && Shifted(mem[..], o, from, d, s0 - d0)
    {
      mem[d] := mem[s];
      d, s := d + 1, s + 1;
    }
  }

  method WordsUp(mem: array<Byte>, d0: nat, s0: nat, words: nat, ghost o: seq<Byte>, ghost from: nat)
    requires from <= d0 < s0 && s0 + words * WORD <= mem.Length && Shifted(mem[..], o, from, d0, s0 - d0)
    requires words > 0 ==> d0 % WORD == 0 && s0 % WORD == 0
    modifies mem
    ensures Shifted(mem[..], o, from, d0 + words * WORD, s0 - d0)
  {
    hide Shifted;
    var d, s, c := d0, s0, words;
    while c > 0
      invariant 0 <= c <= words && d == d0 + (words - c) * WORD && s == s0 + (words - c) * WORD
      invariant Shifted(mem[..], o, from, d, s0 - d0)
    {
      ghost var m := mem[..];
      CopyWord(mem, d, s);
      ShiftUp(o, m, mem[..], from, d, d + WORD, s0 - d0);
      d, s, c := d + WORD, s + WORD, c - 1;
    }
  }

  /** memmove_fwd. */
  method MemmoveFwd(mem: array<Byte>, dest: nat, src: nat, size: nat)
    requires dest < src && src + size <= mem.Length
    modifies mem
    ensures Shifted(mem[..], old(mem[..]), dest, dest + size, src - dest)
  {
    var d, s, n := dest, src, size;
    hide Shifted;
    ghost var o := mem[..];
    Unshifted(o, d, s - d);
    if s % WORD != 0 || d % WORD != 0 {
      var c := n;
      if n >= WORD && s % WORD == d % WORD {
        c := WORD - s % WORD;
      }
      n := n - c;
      BytesUp(mem, d, s, c, o, dest);
      d, s := d + c, s + c;
    }
    var words := n / WORD;
    WordsUp(mem, d, s, words, o, dest);
    d, s := d + words * WORD, s + words * WORD;
    BytesUp(mem, d, s, n % WORD, o, dest);
  }

  /** A byte-wise loop that descends from `d`; the bytes up to `to` are done already. */
  method BytesDown(mem: array<Byte>, d0: nat, s0: nat, c: nat, ghost o: seq<Byte>, ghost to: nat)
    requires c <= s0 < d0 <= to <= mem.Length && Shifted(mem[..], o, d0, to, s0 - d0)
    modifies mem
    ensures Shifted(mem[..], o, d0 - c, to, s0 - d0)
  {
    var d, s := d0, s0;
    while d > d0 - c
      invariant d0 - c <= d <= d0 && s == d + (s0 - d0) && Shifted(mem[..], o, d, to, s0 - d0)
    {
      d, s := d - 1, s - 1;
      mem[d] := mem[s];
    }
  }

  method WordsDown(mem: array<Byte>, d0: nat, s0: nat, words: nat, ghost o: seq<Byte>, ghost to: nat)
    requires words * WORD <= s0 < d0 <= to <= mem.Length && Shifted(mem[..], o, d0, to, s0 - d0)
    requires words > 0 ==> d0 % WORD == 0 && s0 % WORD == 0
    modifies mem
    ensures Shifted(mem[..], o, d0 - words * WORD, to, s0 - d0)
  {
    hide Shifted;
    var d, s, c := d0, s0, words;
    while c > 0
      invariant 0 <= c <= words && d == d0 - (words - c) * WORD && s == s0 - (words - c) * WORD
      invariant Shifted(mem[..], o, d, to, s0 - d0)
    {
      d, s, c := d - WORD, s - WORD, c - 1;
      ghost var m := mem[..];
      CopyWord(mem, d, s);
      ShiftDown(o, m, mem[..], d, d + WORD, to, s0 - d0);
    }
  }

  /** memmove_bwd. */
  method MemmoveBwd(mem: array<Byte>, dest: nat, src: nat, size: nat)
    requires src < dest && dest + size <= mem.Length
    modifies mem
    ensures Shifted(mem[..], old(mem[..]), dest, dest + size, src - dest)
  {
    var s, d, n := src + size, dest + size, size;
    hide Shifted;
    ghost var o := mem[..];
    Unshifted(o, d, s - d);
    if s % WORD != 0 || d % WORD != 0 {
      var c := n;
      if n > WORD && s % WORD == d % WORD {
        c := s % WORD;
      }
      n := n - c;
      BytesDown(mem, d, s, c, o, dest + size);
      d, s := d - c, s - c;
    }
    var words := n / WORD;
    WordsDown(mem, d, s, words, o, dest + size);
    d, s := d - words * WORD, s - words * WORD;
    BytesDown(mem, d, s, n % WORD, o, dest + size);
  }

  /** memmove: as if through a separate buffer (section 7.21.2.2 of ISO/IEC 9899:1999). */
  method MoveMemory(mem: array<Byte>, dest: nat, src: nat, n: nat) returns (r: nat)
    requires dest + n <= mem.Length && src + n <= mem.Length
    modifies mem
    ensures r == dest && mem[..] == old(mem[..])[..dest] + old(mem[..])[src..src + n] + old(mem[..])[dest + n..]
  {
    if n != 0 && dest != src {
      if dest < src {
        MemmoveFwd(mem, dest, src, n);
      } else {
        MemmoveBwd(mem, dest, src, n);
      }
    }
    return dest;
  }
}
