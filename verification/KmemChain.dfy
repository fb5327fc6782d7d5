/**
 The chunk chain of the kernel heap (kernel/kmem.c, CONFIG_MMU): headers in address order behind the
 initial header, each followed by its data. The chain is a sequence; prev and next are neighbours in it.
 */
module KmemChain {
  import opened KernelList

  const HDR: int := 32  // sizeof(struct kmem) on the 32-bit target, a multiple of 8

  /** A chunk by the address of its header; `size` counts its data bytes. */
  datatype Chunk = Chunk(addr: int, size: int, free: bool) {
    function Data(): int { addr + HDR }
    function End(): int { addr + HDR + size }
  }

  function Align8(x: int): (a: int)
    ensures x <= a < x + 8 && a % 8 == 0
  {
    x + (7 - (x + 7) % 8)
  }

  predicate Fitting(c: Chunk, lo: int, hi: int) {
    lo <= c.addr && c.size >= 0 && c.End() <= hi && c.addr % 8 == 0 && c.size % 8 == 0
  }

  /** Chunks lie in order between `lo` and `hi`, without overlap. */
  ghost predicate Ordered(cs: seq<Chunk>, lo: int, hi: int) {
    && lo <= hi
    && (forall i | 0 <= i < |cs| :: Fitting(cs[i], lo, hi))
    && (forall i, j | 0 <= i < j < |cs| :: cs[i].End() <= cs[j].addr)
  }

  /** The first chunk begins at `lo`, each other one where its predecessor ends, and the last one ends at `hi`. */
  ghost predicate Tight(cs: seq<Chunk>, lo: int, hi: int) {
    && (forall i | 0 <= i < |cs| - 1 :: cs[i].End() == cs[i + 1].addr)
    && if cs == [] then lo == hi else cs[0].addr == lo && cs[|cs| - 1].End() == hi
  }

  /** No two neighbours are both free. */
  ghost predicate Merged(cs: seq<Chunk>) {
    forall i | 0 <= i < |cs| - 1 :: !(cs[i].free && cs[i + 1].free)
  }

  function FreeBytes(cs: seq<Chunk>): int {
    if cs == [] then 0 else FreeBytes(cs[..|cs| - 1]) + (if cs[|cs| - 1].free then cs[|cs| - 1].size else 0)
  }

  ghost predicate FreeAt(cs: seq<Chunk>, a: int) { exists i :: 0 <= i < |cs| && cs[i].addr == a && cs[i].free }

  /** The list holds the free chunks, each once. */
  ghost predicate Lists(cs: seq<Chunk>, l: seq<int>) {
    NoRepeat(l) && forall a :: a in l <==> FreeAt(cs, a)
  }

  // ---------------------------------------------------------------- replacing a stretch of the chain

  lemma {:induction false} FreeBytesConcat(a: seq<Chunk>, b: seq<Chunk>)
    ensures FreeBytes(a + b) == FreeBytes(a) + FreeBytes(b)
    decreases |b|
  {
    if b == [] {
      assert a + b == a;
    } else {
      assert (a + b)[..|a + b| - 1] == a + b[..|b| - 1];
      FreeBytesConcat(a, b[..|b| - 1]);
    }
  }

  lemma FreeBytesOne(c: Chunk)
    ensures FreeBytes([c]) == if c.free then c.size else 0
  {
    assert [c][..0] == [];
    assert FreeBytes([]) == 0;
  }

  /** The chain with the chunks `i .. j` replaced by `mid`. */
  function Replace(cs: seq<Chunk>, i: nat, j: nat, mid: seq<Chunk>): seq<Chunk>
    requires i <= j <= |cs|
  {
    cs[..i] + mid + cs[j..]
  }

  lemma ReplaceBytes(cs: seq<Chunk>, i: nat, j: nat, mid: seq<Chunk>)
    requires i <= j <= |cs|
    ensures FreeBytes(Replace(cs, i, j, mid)) == FreeBytes(cs) - FreeBytes(cs[i..j]) + FreeBytes(mid)
  {
    assert cs == cs[..i] + cs[i..j] + cs[j..];
    FreeBytesConcat(cs[..i] + cs[i..j], cs[j..]);
    FreeBytesConcat(cs[..i], cs[i..j]);
    FreeBytesConcat(cs[..i] + mid, cs[j..]);
    FreeBytesConcat(cs[..i], mid);
  }

  /** Replacing chunks inside the room they took keeps the order. */
  lemma ReplaceOrdered(cs: seq<Chunk>, lo: int, hi: int, i: nat, j: nat, mid: seq<Chunk>, hi': int)
    requires Ordered(cs, lo, hi) && i < j <= |cs| && Ordered(mid, cs[i].addr, if j < |cs| then cs[j].addr else hi')
    requires if j < |cs| then hi <= hi' else cs[i].addr <= hi'
    ensures Ordered(Replace(cs, i, j, mid), lo, hi')
  {
    var r := Replace(cs, i, j, mid);
    forall k | 0 <= k < |r| ensures Fitting(r[k], lo, hi') {
      if k < i {
        assert cs[k].End() <= cs[i].addr;
      } else if k < i + |mid| {
        assert Fitting(mid[k - i], cs[i].addr, if j < |cs| then cs[j].addr else hi');
        assert Fitting(cs[i], lo, hi);
      } else {
        assert r[k] == cs[k - |mid| - i + j];
      }
    }
    forall k, l | 0 <= k < l < |r| ensures r[k].End() <= r[l].addr {
      if l < i + |mid| {
        if l >= i && k < i {
          assert cs[k].End() <= cs[i].addr;
          assert Fitting(mid[l - i], cs[i].addr, if j < |cs| then cs[j].addr else hi');
        }
      } else {
        assert r[l] == cs[l - |mid| - i + j];
        if i <= k < i + |mid| { assert Fitting(mid[k - i], cs[i].addr, cs[j].addr); assert cs[j].addr <= r[l].addr; }
      }
    }
  }

  lemma AddrOrder(cs: seq<Chunk>, lo: int, hi: int, k: int, n: int)
    requires Ordered(cs, lo, hi) && 0 <= k < |cs| && 0 <= n < |cs|
    ensures k < n ==> cs[k].addr < cs[n].addr
    ensures n < k ==> cs[n].addr < cs[k].addr
  {
    assert Fitting(cs[k], lo, hi) && Fitting(cs[n], lo, hi);
    assert k < n ==> cs[k].End() <= cs[n].addr;
    assert n < k ==> cs[n].End() <= cs[k].addr;
  }

  /** An address belongs to one chunk only. */
  lemma SameAddr(cs: seq<Chunk>, lo: int, hi: int, k: int, n: int)
    requires Ordered(cs, lo, hi) && 0 <= k < |cs| && 0 <= n < |cs| && cs[k].addr == cs[n].addr
    ensures k == n
  {
    AddrOrder(cs, lo, hi, k, n);
  }

  lemma NotInSlice(cs: seq<Chunk>, lo: int, hi: int, i: nat, j: nat, k: nat)
    requires Ordered(cs, lo, hi) && i <= j <= |cs| && k < |cs|
    ensures HasAddr(cs[i..j], cs[k].addr) <==> i <= k < j
  {
    if HasAddr(cs[i..j], cs[k].addr) {
      var n :| 0 <= n < |cs[i..j]| && cs[i..j][n].addr == cs[k].addr;
      SameAddr(cs, lo, hi, i + n, k);
    }
    if i <= k < j {
      assert cs[i..j][k - i].addr == cs[k].addr;
    }
  }

  /** The free chunks after a replacement. */
  lemma ReplaceFree(cs: seq<Chunk>, lo: int, hi: int, i: nat, j: nat, mid: seq<Chunk>, a: int)
    requires Ordered(cs, lo, hi) && i <= j <= |cs|
    ensures FreeAt(Replace(cs, i, j, mid), a) <==> (FreeAt(cs, a) && !HasAddr(cs[i..j], a)) || FreeAt(mid, a)
  {
    hide Ordered;
    var r := Replace(cs, i, j, mid);
    if FreeAt(r, a) {
      var k :| 0 <= k < |r| && r[k].addr == a && r[k].free;
      if i <= k < i + |mid| {
        assert mid[k - i].addr == a && mid[k - i].free;
      } else {
        var m := if k < i then k else k - |mid| - i + j;
        assert cs[m] == r[k];
        NotInSlice(cs, lo, hi, i, j, m);
      }
    }
    if FreeAt(cs, a) && !HasAddr(cs[i..j], a) {
      var k :| 0 <= k < |cs| && cs[k].addr == a && cs[k].free;
      NotInSlice(cs, lo, hi, i, j, k);
      var m := if k < i then k else k - j + i + |mid|;
      assert r[m] == cs[k];
    }
    if FreeAt(mid, a) {
      var k :| 0 <= k < |mid| && mid[k].addr == a && mid[k].free;
      assert r[i + k] == mid[k];
    }
  }

  ghost predicate HasAddr(cs: seq<Chunk>, a: int) { exists k :: 0 <= k < |cs| && cs[k].addr == a }

  /** Chain, free list and byte count belong together. */
  ghost predicate Sound(cs: seq<Chunk>, l: seq<int>, avail: int, lo: int, hi: int) {
    Ordered(cs, lo, hi) && Lists(cs, l) && avail == FreeBytes(cs)
  }

  /** How the list must change along with the chain. */
  ghost predicate ListStep(l: seq<int>, l': seq<int>, out: seq<Chunk>, mid: seq<Chunk>) {
    NoRepeat(l') && forall a :: a in l' <==> (a in l && !HasAddr(out, a)) || FreeAt(mid, a)
  }

  lemma ReplaceSound(cs: seq<Chunk>, l: seq<int>, avail: int, lo: int, hi: int, i: nat, j: nat, mid: seq<Chunk>,
                     l': seq<int>, hi': int)
    requires Sound(cs, l, avail, lo, hi) && i < j <= |cs|
    requires Ordered(mid, cs[i].addr, if j < |cs| then cs[j].addr else hi')
    requires if j < |cs| then hi <= hi' else cs[i].addr <= hi'
    requires ListStep(l, l', cs[i..j], mid)
    ensures Sound(Replace(cs, i, j, mid), l', avail - FreeBytes(cs[i..j]) + FreeBytes(mid), lo, hi')
  {
    hide Replace, Ordered, FreeAt;
    ReplaceOrdered(cs, lo, hi, i, j, mid, hi');
    ReplaceBytes(cs, i, j, mid);
    forall a ensures a in l' <==> FreeAt(Replace(cs, i, j, mid), a) {
      ReplaceFree(cs, lo, hi, i, j, mid, a);
    }
  }

  // ---------------------------------------------------------------- the list operations

  lemma ListDel(l: seq<int>, c: Chunk, mid: seq<Chunk>)
    requires NoRepeat(l) && forall k | 0 <= k < |mid| :: !mid[k].free
    ensures ListStep(l, Without(l, c.addr), [c], mid)
  {
    WithoutIs(l, c.addr);
    assert HasAddr([c], c.addr) by { assert [c][0].addr == c.addr; }
  }

  lemma ListAdd(l: seq<int>, c: Chunk, mid: seq<Chunk>, x: int)
    requires NoRepeat(l) && c.addr !in l && x !in l
    requires forall a :: FreeAt(mid, a) <==> a == x
    ensures ListStep(l, l + [x], [c], mid)
  {
    assert forall a :: HasAddr([c], a) <==> a == c.addr by { assert [c][0] == c; }
  }

  // ---------------------------------------------------------------- the steps of the allocator

  /** What every step keeps: chain, list and count in agreement, neighbours merged. */
  ghost predicate Consistent(cs: seq<Chunk>, l: seq<int>, avail: int, lo: int, hi: int) {
    Sound(cs, l, avail, lo, hi) && Merged(cs)
  }

  lemma ReplaceOne(cs: seq<Chunk>, i: nat, c: Chunk)
    requires i < |cs|
    ensures Replace(cs, i, i + 1, [c]) == cs[i := c] && cs[i..i + 1] == [cs[i]]
  {}

  lemma OneFits(c: Chunk, lo: int, hi: int)
    requires Fitting(c, lo, hi)
    ensures Ordered([c], lo, hi)
  {}

  /** A chunk's own room, up to its successor or the break. */
  lemma Room(cs: seq<Chunk>, lo: int, hi: int, i: nat)
    requires Ordered(cs, lo, hi) && i < |cs|
    ensures Fitting(cs[i], cs[i].addr, if i + 1 < |cs| then cs[i + 1].addr else hi) && cs[i].addr <= hi
  {
    assert Fitting(cs[i], lo, hi);
    assert i + 1 < |cs| ==> cs[i].End() <= cs[i + 1].addr;
  }

  lemma ChunkAligned(cs: seq<Chunk>, l: seq<int>, avail: int, lo: int, hi: int, i: int)
    requires Sound(cs, l, avail, lo, hi) && 0 <= i < |cs|
    ensures cs[i].addr % 8 == 0 && cs[i].size % 8 == 0 && cs[i].size >= 0 && lo <= cs[i].addr && cs[i].End() <= hi
  {
    assert Fitting(cs[i], lo, hi);
  }

  lemma AddrOnList(cs: seq<Chunk>, l: seq<int>, lo: int, hi: int, i: nat)
    requires Ordered(cs, lo, hi) && Lists(cs, l) && i < |cs|
    ensures cs[i].addr in l <==> cs[i].free
  {
    if cs[i].addr in l {
      var k :| 0 <= k < |cs| && cs[k].addr == cs[i].addr && cs[k].free;
      SameAddr(cs, lo, hi, i, k);
    }
  }

  /** Taking a free chunk off the list. */
  lemma TakeStep(cs: seq<Chunk>, l: seq<int>, avail: int, lo: int, hi: int, i: nat)
    requires Consistent(cs, l, avail, lo, hi) && i < |cs| && cs[i].free
    ensures Consistent(cs[i := cs[i].(free := false)], Without(l, cs[i].addr), avail - cs[i].size, lo, hi)
  {
    hide Ordered, FreeBytes, Without;
    var c := cs[i].(free := false);
    ReplaceOne(cs, i, c);
    Room(cs, lo, hi, i);
    OneFits(c, cs[i].addr, if i + 1 < |cs| then cs[i + 1].addr else hi);
    ListDel(l, cs[i], [c]);
    FreeBytesOne(c);
    FreeBytesOne(cs[i]);
    ReplaceSound(cs, l, avail, lo, hi, i, i + 1, [c], Without(l, cs[i].addr), hi);
  }

  /** Putting a chunk whose neighbours are in use on the list. */
  lemma GiveStep(cs: seq<Chunk>, l: seq<int>, avail: int, lo: int, hi: int, i: nat)
    requires Consistent(cs, l, avail, lo, hi) && i < |cs| && !cs[i].free
    requires (i > 0 ==> !cs[i - 1].free) && (i + 1 < |cs| ==> !cs[i + 1].free)
    ensures Consistent(cs[i := cs[i].(free := true)], l + [cs[i].addr], avail + cs[i].size, lo, hi)
  {
    hide Sound;
    GiveSound(cs, l, avail, lo, hi, i);
  }

  lemma GiveSound(cs: seq<Chunk>, l: seq<int>, avail: int, lo: int, hi: int, i: nat)
    requires Sound(cs, l, avail, lo, hi) && i < |cs| && !cs[i].free
    ensures Sound(cs[i := cs[i].(free := true)], l + [cs[i].addr], avail + cs[i].size, lo, hi)
  {
    hide FreeAt, HasAddr, FreeBytes, NoRepeat;
    var c := cs[i].(free := true);
    ReplaceOne(cs, i, c);
    Room(cs, lo, hi, i);
    OneFits(c, cs[i].addr, if i + 1 < |cs| then cs[i + 1].addr else hi);
    AddrOnList(cs, l, lo, hi, i);
    OnlyFree(c);
    ListAdd(l, cs[i], [c], c.addr);
    FreeBytesOne(c);
    FreeBytesOne(cs[i]);
    ReplaceSound(cs, l, avail, lo, hi, i, i + 1, [c], l + [c.addr], hi);
  }

  lemma OnlyFree(c: Chunk)
    requires c.free
    ensures forall a :: FreeAt([c], a) <==> a == c.addr
  {
    assert [c][0] == c;
  }

  /** The upper part of a split chunk. */
  function Upper(c: Chunk, len: int): Chunk { Chunk(c.addr + HDR + len, c.size - len - HDR, true) }

  function Halves(c: Chunk, len: int): seq<Chunk> { [Chunk(c.addr, len, c.free), Upper(c, len)] }

  /** kmem_split on a chunk in use: the rest becomes a free chunk. */
  lemma SplitStep(cs: seq<Chunk>, l: seq<int>, avail: int, lo: int, hi: int, i: nat, len: int)
    requires Sound(cs, l, avail, lo, hi) && i < |cs| && !cs[i].free && 0 <= len && len % 8 == 0
             && len + HDR <= cs[i].size
    ensures Sound(Replace(cs, i, i + 1, Halves(cs[i], len)), l + [Upper(cs[i], len).addr],
                  avail + Upper(cs[i], len).size, lo, hi)
  {
    hide Replace, FreeBytes, FreeAt, HasAddr;
    var mid, u := Halves(cs[i], len), Upper(cs[i], len);
    ReplaceOne(cs, i, cs[i]);
    Room(cs, lo, hi, i);
    UpperIsNew(cs, l, lo, hi, i, len);
    AddrOnList(cs, l, lo, hi, i);
    OneFree(mid, cs[i].addr, len, u);
    ListAdd(l, cs[i], mid, u.addr);
    assert mid == [mid[0]] + [mid[1]];
    FreeBytesConcat([mid[0]], [mid[1]]);
    FreeBytesOne(mid[0]);
    FreeBytesOne(mid[1]);
    FreeBytesOne(cs[i]);
    ReplaceSound(cs, l, avail, lo, hi, i, i + 1, mid, l + [u.addr], hi);
  }

  lemma OneFree(mid: seq<Chunk>, addr: int, len: int, u: Chunk)
    requires mid == [Chunk(addr, len, false), u] && u.free
    ensures forall a :: FreeAt(mid, a) <==> a == u.addr
  {
    assert mid[1] == u;
  }

  lemma UpperIsNew(cs: seq<Chunk>, l: seq<int>, lo: int, hi: int, i: nat, len: int)
    requires Ordered(cs, lo, hi) && Lists(cs, l) && i < |cs| && 0 <= len && len + HDR <= cs[i].size
    ensures Upper(cs[i], len).addr !in l
  {
    var a := Upper(cs[i], len).addr;
    forall k | 0 <= k < |cs| ensures cs[k].addr != a {
      assert Fitting(cs[k], lo, hi);
      assert k > i ==> cs[i].End() <= cs[k].addr;
      assert k < i ==> cs[k].End() <= cs[i].addr;
    }
  }

  /** A chunk together with the one behind it. */
  function Joined(c: Chunk, d: Chunk): Chunk { Chunk(c.addr, c.size + d.size + HDR, false) }

  /** kmem_merge of two neighbours of which exactly one is free, when that is taken off the list first. */
  lemma JoinStep(cs: seq<Chunk>, l: seq<int>, avail: int, lo: int, hi: int, i: nat)
    requires Consistent(cs, l, avail, lo, hi) && i + 1 < |cs| && cs[i].free != cs[i + 1].free
    ensures var f := if cs[i].free then cs[i] else cs[i + 1];
            Consistent(Replace(cs, i, i + 2, [Joined(cs[i], cs[i + 1])]), Without(l, f.addr), avail - f.size, lo, hi)
  {
    hide Sound;
    JoinSound(cs, l, avail, lo, hi, i);
  }

  lemma JoinSound(cs: seq<Chunk>, l: seq<int>, avail: int, lo: int, hi: int, i: nat)
    requires Sound(cs, l, avail, lo, hi) && i + 1 < |cs| && cs[i].free != cs[i + 1].free
    ensures var f := if cs[i].free then cs[i] else cs[i + 1];
            Sound(Replace(cs, i, i + 2, [Joined(cs[i], cs[i + 1])]), Without(l, f.addr), avail - f.size, lo, hi)
  {
    hide Replace, FreeBytes, FreeAt, HasAddr;
    var f := if cs[i].free then cs[i] else cs[i + 1];
    var j := Joined(cs[i], cs[i + 1]);
    assert cs[i..i + 2] == [cs[i]] + [cs[i + 1]];
    Room(cs, lo, hi, i + 1);
    Room(cs, lo, hi, i);
    OneFits(j, cs[i].addr, if i + 2 < |cs| then cs[i + 2].addr else hi);
    AddrOnList(cs, l, lo, hi, i);
    AddrOnList(cs, l, lo, hi, i + 1);
    ListJoin(l, cs[i], cs[i + 1], j);
    FreeBytesConcat([cs[i]], [cs[i + 1]]);
    FreeBytesOne(cs[i]);
    FreeBytesOne(cs[i + 1]);
    FreeBytesOne(j);
    ReplaceSound(cs, l, avail, lo, hi, i, i + 2, [j], Without(l, f.addr), hi);
  }

  lemma ListJoin(l: seq<int>, c: Chunk, d: Chunk, j: Chunk)
    requires NoRepeat(l) && (c.addr in l <==> c.free) && (d.addr in l <==> d.free) && c.free != d.free && !j.free
    ensures ListStep(l, Without(l, if c.free then c.addr else d.addr), [c] + [d], [j])
  {
    WithoutIs(l, if c.free then c.addr else d.addr);
    var pair := [c] + [d];
    assert forall a :: HasAddr(pair, a) <==> a == c.addr || a == d.addr by {
      assert pair[0] == c && pair[1] == d;
    }
  }

  /** The last chunk, in use, reaches up to a higher break. */
  lemma GrowStep(cs: seq<Chunk>, l: seq<int>, avail: int, lo: int, hi: int, hi': int)
    requires Consistent(cs, l, avail, lo, hi) && cs != [] && !cs[|cs| - 1].free && hi <= hi' && hi' % 8 == 0
    ensures var n := |cs| - 1;
            Consistent(cs[n := cs[n].(size := hi' - cs[n].addr - HDR)], l, avail, lo, hi')
  {
    var n := |cs| - 1;
    var c := cs[n].(size := hi' - cs[n].addr - HDR);
    ReplaceOne(cs, n, c);
    Room(cs, lo, hi, n);
    OneFits(c, cs[n].addr, hi');
    AddrOnList(cs, l, lo, hi, n);
    assert ListStep(l, l, [cs[n]], [c]) by { assert [cs[n]][0] == cs[n] && [c][0] == c; }
    FreeBytesOne(c);
    FreeBytesOne(cs[n]);
    ReplaceSound(cs, l, avail, lo, hi, n, n + 1, [c], l, hi');
  }

  /** A fresh chunk between the old and the new break. */
  lemma AppendStep(cs: seq<Chunk>, l: seq<int>, avail: int, lo: int, hi: int, hi': int)
    requires Consistent(cs, l, avail, lo, hi) && hi % 8 == 0 && hi' % 8 == 0 && hi + HDR <= hi'
    ensures Consistent(cs + [Chunk(hi, hi' - hi - HDR, false)], l, avail, lo, hi')
  {
    hide Ordered, FreeAt, FreeBytes;
    var c := Chunk(hi, hi' - hi - HDR, false);
    assert Fitting(c, hi, hi');
    OrderedBounds(cs, lo, hi);
    AppendOrdered(cs, lo, hi, hi', c);
    AppendFree(cs, c);
    FreeBytesConcat(cs, [c]);
    FreeBytesOne(c);
  }

  lemma OrderedBounds(cs: seq<Chunk>, lo: int, hi: int)
    requires Ordered(cs, lo, hi)
    ensures lo <= hi
  {}

  lemma AppendOrdered(cs: seq<Chunk>, lo: int, hi: int, hi': int, c: Chunk)
    requires Ordered(cs, lo, hi) && hi <= hi' && Fitting(c, hi, hi')
    ensures Ordered(cs + [c], lo, hi')
  {
    var r := cs + [c];
    forall k | 0 <= k < |r| ensures Fitting(r[k], lo, hi') && (k < |cs| ==> r[k].End() <= hi) {
      if k < |cs| { assert Fitting(cs[k], lo, hi); }
    }
  }

  lemma AppendFree(cs: seq<Chunk>, c: Chunk)
    requires !c.free
    ensures forall a :: FreeAt(cs + [c], a) <==> FreeAt(cs, a)
  {
    forall a ensures FreeAt(cs + [c], a) <==> FreeAt(cs, a) {
      if FreeAt(cs, a) {
        var k :| 0 <= k < |cs| && cs[k].addr == a && cs[k].free;
        assert (cs + [c])[k] == cs[k];
      }
    }
  }

  /** Giving up the last chunk. */
  lemma DropStep(cs: seq<Chunk>, l: seq<int>, avail: int, lo: int, hi: int, hi': int)
    requires Sound(cs, l, avail, lo, hi) && cs != [] && cs[|cs| - 1].free && cs[|cs| - 1].addr <= hi'
    ensures var n := |cs| - 1; Sound(cs[..n], Without(l, cs[n].addr), avail - cs[n].size, lo, hi')
  {
    var n := |cs| - 1;
    assert Replace(cs, n, n + 1, []) == cs[..n];
    ReplaceOne(cs, n, cs[n]);
    Room(cs, lo, hi, n);
    ListDel(l, cs[n], []);
    FreeBytesOne(cs[n]);
    ReplaceSound(cs, l, avail, lo, hi, n, n + 1, [], Without(l, cs[n].addr), hi');
  }

  // ---------------------------------------------------------------- the chunks in use

  function LiveOf(cs: seq<Chunk>): set<Chunk> { set c | c in cs && !c.free }

  lemma LiveReplace(cs: seq<Chunk>, i: nat, j: nat, mid: seq<Chunk>)
    requires i <= j <= |cs|
    ensures LiveOf(Replace(cs, i, j, mid)) == LiveOf(cs[..i]) + LiveOf(mid) + LiveOf(cs[j..])
    ensures LiveOf(cs) == LiveOf(cs[..i]) + LiveOf(cs[i..j]) + LiveOf(cs[j..])
  {
    assert cs == cs[..i] + cs[i..j] + cs[j..];
  }

  /** Replacing free chunks by others adds the ones in use among those. */
  lemma LiveGain(cs: seq<Chunk>, i: nat, mid: seq<Chunk>, c: Chunk)
    requires i < |cs| && cs[i].free && !c.free && mid != [] && mid[0] == c
    requires forall k | 1 <= k < |mid| :: mid[k].free
    ensures LiveOf(Replace(cs, i, i + 1, mid)) == LiveOf(cs) + {c}
  {
    LiveReplace(cs, i, i + 1, mid);
    assert cs[i..i + 1] == [cs[i]];
    assert LiveOf(mid) == {c} by { assert c in mid; }
  }

  /** Replacing one chunk in use, and free ones around it, by a free chunk takes it out. */
  lemma LiveLoss(cs: seq<Chunk>, lo: int, hi: int, i: nat, j: nat, k: nat, f: Chunk)
    requires Ordered(cs, lo, hi) && i <= k < j <= |cs| && !cs[k].free && f.free
    requires forall n | i <= n < j && n != k :: cs[n].free
    ensures LiveOf(Replace(cs, i, j, [f])) == LiveOf(cs) - {cs[k]}
  {
    LiveReplace(cs, i, j, [f]);
    assert LiveOf([f]) == {};
    OneLive(cs, i, j, k);
    forall c | c in cs[..i] || c in cs[j..] ensures c != cs[k] {
      if c in cs[..i] {
        var n :| 0 <= n < i && cs[n] == c;
        AddrOrder(cs, lo, hi, n, k);
      } else {
        var n :| 0 <= n < |cs[j..]| && cs[j..][n] == c;
        AddrOrder(cs, lo, hi, j + n, k);
      }
    }
  }

  lemma OneLive(cs: seq<Chunk>, i: nat, j: nat, k: nat)
    requires i <= k < j <= |cs| && !cs[k].free && forall n | i <= n < j && n != k :: cs[n].free
    ensures LiveOf(cs[i..j]) == {cs[k]}
  {
    assert cs[i..j][k - i] == cs[k];
  }

  /** Two chunks of the chain do not overlap. */
  lemma LiveApart(cs: seq<Chunk>, lo: int, hi: int, c: Chunk, d: Chunk)
    requires Ordered(cs, lo, hi) && c in cs && d in cs && c != d
    ensures c.End() <= d.addr || d.End() <= c.addr
  {
    var i :| 0 <= i < |cs| && cs[i] == c;
    var j :| 0 <= j < |cs| && cs[j] == d;
    assert i < j || j < i;
  }
}
