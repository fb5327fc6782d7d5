/**
 The shape of a buddy pool (lib/mm.c): a binary tree whose leaves are the blocks. A block of height
 `h` covers Pow2(h) minimum-size blocks; positions are minimum-size block indices. Tiling, alignment
 and buddy pairs are properties of the tree, so they hold by construction.
 */
module BuddyTree {
  import opened Words

  datatype Tree = Free | Live | Node(l: Tree, r: Tree)

  /** A tree that can stand at height `h`. */
  predicate Fits(t: Tree, h: nat) { t.Node? ==> h > 0 && Fits(t.l, h - 1) && Fits(t.r, h - 1) }

  /** What stands at a position: the start of a block of some height, or nothing. */
  datatype Spot = Inside | Block(height: nat, free: bool)

  function Find(t: Tree, h: nat, x: nat): Spot
    requires Fits(t, h)
  {
    match t
    case Free => if x == 0 then Block(h, true) else Inside
    case Live => if x == 0 then Block(h, false) else Inside
    case Node(l, r) => if x < Pow2(h - 1) then Find(l, h - 1, x) else Find(r, h - 1, x - Pow2(h - 1))
  }

  /** No two buddies are both free. */
  predicate Coalesced(t: Tree) {
    t.Node? ==> !(t.l.Free? && t.r.Free?) && Coalesced(t.l) && Coalesced(t.r)
  }

  /** Minimum-size blocks in use. */
  function InUse(t: Tree, h: nat): nat
    requires Fits(t, h)
  {
    match t
    case Free => 0
    case Live => Pow2(h)
    case Node(l, r) => InUse(l, h - 1) + InUse(r, h - 1)
  }

  /** A coalesced pool with nothing in use is one free block. */
  lemma {:induction false} UnusedIsOneBlock(t: Tree, h: nat)
    requires Fits(t, h) && Coalesced(t) && InUse(t, h) == 0
    ensures t == Free
  {
    if t.Node? {
      UnusedIsOneBlock(t.l, h - 1);
      UnusedIsOneBlock(t.r, h - 1);
    }
  }

  // ---------------------------------------------------------------- subtrees

  /** Position `x` starts a subtree of height `k`. */
  predicate Has(t: Tree, h: nat, x: nat, k: nat)
    requires Fits(t, h)
  {
    if k == h then x == 0
    else t.Node? && if x < Pow2(h - 1) then Has(t.l, h - 1, x, k) else Has(t.r, h - 1, x - Pow2(h - 1), k)
  }

  function Sub(t: Tree, h: nat, x: nat, k: nat): (s: Tree)
    requires Fits(t, h) && Has(t, h, x, k)
    ensures Fits(s, k)
  {
    if k == h then t
    else if x < Pow2(h - 1) then Sub(t.l, h - 1, x, k) else Sub(t.r, h - 1, x - Pow2(h - 1), k)
  }

  function Put(t: Tree, h: nat, x: nat, k: nat, s: Tree): (u: Tree)
    requires Fits(t, h) && Has(t, h, x, k) && Fits(s, k)
    ensures Fits(u, h)
  {
    if k == h then s
    else if x < Pow2(h - 1) then Node(Put(t.l, h - 1, x, k, s), t.r)
    else Node(t.l, Put(t.r, h - 1, x - Pow2(h - 1), k, s))
  }

  lemma {:induction false} HasBound(t: Tree, h: nat, x: nat, k: nat)
    requires Fits(t, h) && Has(t, h, x, k)
    ensures k <= h && x + Pow2(k) <= Pow2(h)
    decreases h
  {
    if k != h {
      if x < Pow2(h - 1) { HasBound(t.l, h - 1, x, k); } else { HasBound(t.r, h - 1, x - Pow2(h - 1), k); }
    }
  }

  lemma {:induction false} PutHas(t: Tree, h: nat, x: nat, k: nat, s: Tree)
    requires Fits(t, h) && Has(t, h, x, k) && Fits(s, k)
    ensures var u := Put(t, h, x, k, s); Has(u, h, x, k) && Sub(u, h, x, k) == s
    decreases h
  {
    if k != h {
      if x < Pow2(h - 1) { PutHas(t.l, h - 1, x, k, s); } else { PutHas(t.r, h - 1, x - Pow2(h - 1), k, s); }
    }
  }

  /** Replacing a subtree changes the blocks inside it and no others. */
  lemma {:induction false} FindPut(t: Tree, h: nat, x: nat, k: nat, s: Tree, y: nat)
    requires Fits(t, h) && Has(t, h, x, k) && Fits(s, k) && y < Pow2(h)
    ensures Find(Put(t, h, x, k, s), h, y)
         == if x <= y < x + Pow2(k) then Find(s, k, y - x) else Find(t, h, y)
    decreases h
  {
    HasBound(t, h, x, k);
    if k != h {
      var half := Pow2(h - 1);
      if x < half {
        HasBound(t.l, h - 1, x, k);
        if y < half { FindPut(t.l, h - 1, x, k, s, y); }
      } else {
        if y >= half { FindPut(t.r, h - 1, x - half, k, s, y - half); }
      }
    }
  }

  lemma {:induction false} PutInUse(t: Tree, h: nat, x: nat, k: nat, s: Tree)
    requires Fits(t, h) && Has(t, h, x, k) && Fits(s, k)
    ensures InUse(Put(t, h, x, k, s), h) == InUse(t, h) - InUse(Sub(t, h, x, k), k) + InUse(s, k)
    decreases h
  {
    if k != h {
      if x < Pow2(h - 1) { PutInUse(t.l, h - 1, x, k, s); } else { PutInUse(t.r, h - 1, x - Pow2(h - 1), k, s); }
    }
  }

  /** A block is a leaf of its height; it ends inside the pool. */
  lemma {:induction false} BlockIsLeaf(t: Tree, h: nat, x: nat)
    requires Fits(t, h) && Find(t, h, x).Block?
    ensures var b := Find(t, h, x);
            && b.height <= h && Has(t, h, x, b.height) && x + Pow2(b.height) <= Pow2(h)
            && Sub(t, h, x, b.height) == (if b.free then Free else Live)
    decreases h
  {
    if t.Node? {
      if x < Pow2(h - 1) { BlockIsLeaf(t.l, h - 1, x); } else { BlockIsLeaf(t.r, h - 1, x - Pow2(h - 1)); }
    }
  }

  lemma {:induction false} LeafIsBlock(t: Tree, h: nat, x: nat, k: nat)
    requires Fits(t, h) && Has(t, h, x, k) && !Sub(t, h, x, k).Node?
    ensures Find(t, h, x) == Block(k, Sub(t, h, x, k).Free?)
    decreases h
  {
    if k != h {
      if x < Pow2(h - 1) { LeafIsBlock(t.l, h - 1, x, k); } else { LeafIsBlock(t.r, h - 1, x - Pow2(h - 1), k); }
    }
  }

  // ---------------------------------------------------------------- buddies

  /** `x ^ (1 << k)`. */
  function Flip(x: nat, k: nat): int { if Bit(x, k) then x - Pow2(k) else x + Pow2(k) }

  lemma {:induction false} BitAddHigh(x: nat, k: nat, j: nat)
    requires k < j
    ensures Bit(x + Pow2(j), k) == Bit(x, k)
    decreases k
  {
    if k > 0 {
      assert (x + Pow2(j)) / 2 == x / 2 + Pow2(j - 1);
      BitAddHigh(x / 2, k - 1, j - 1);
    }
  }

  /** The two halves of a subtree of height `k + 1` are each other's buddies. */
  lemma {:induction false} Buddies(t: Tree, h: nat, x: nat, k: nat)
    requires Fits(t, h) && Has(t, h, x, k) && k < h
    ensures var y := Flip(x, k); var p := if Bit(x, k) then y else x;
            && 0 <= y && y + Pow2(k) <= Pow2(h) && Has(t, h, y, k)
            && Has(t, h, p, k + 1)
            && Sub(t, h, p, k + 1) == (if Bit(x, k) then Node(Sub(t, h, y, k), Sub(t, h, x, k))
                                       else Node(Sub(t, h, x, k), Sub(t, h, y, k)))
    decreases h
  {
    var half := Pow2(h - 1);
    HasBound(t, h, x, k);
    if k == h - 1 {
      TopBit(x, k);
    } else if x < half {
      HasBound(t.l, h - 1, x, k);
      Buddies(t.l, h - 1, x, k);
    } else {
      BitAddHigh(x - half, k, h - 1);
      Buddies(t.r, h - 1, x - half, k);
    }
  }

  // ---------------------------------------------------------------- allocating and freeing

  /** A free block of height `i`, split down to a live block of height `o` at its start. */
  function Carve(i: nat, o: nat): (t: Tree)
    requires o <= i
    ensures Fits(t, i) && !t.Free?
    decreases i
  {
    if i == o then Live else Node(Carve(i - 1, o), Free)
  }

  /** Free the block at `x` and coalesce on the way up. */
  function FreeAt(t: Tree, h: nat, x: nat): (u: Tree)
    requires Fits(t, h)
    ensures Fits(u, h)
  {
    if !t.Node? then Free
    else
      var half := Pow2(h - 1);
      var l := if x < half then FreeAt(t.l, h - 1, x) else t.l;
      var r := if x < half then t.r else FreeAt(t.r, h - 1, x - half);
      if l.Free? && r.Free? then Free else Node(l, r)
  }

  lemma {:induction false} CarveShape(i: nat, o: nat)
    requires o <= i
    ensures Coalesced(Carve(i, o)) && InUse(Carve(i, o), i) == Pow2(o)
    ensures Find(Carve(i, o), i, 0) == Block(o, false) && FreeAt(Carve(i, o), i, 0) == Free
    decreases i
  {
    if o < i { CarveShape(i - 1, o); }
  }

  /** The only live block of a carved tree is the one at its start. */
  lemma {:induction false} CarveLive(i: nat, o: nat, y: nat)
    requires o <= i && 0 < y < Pow2(i)
    ensures !Find(Carve(i, o), i, y).Block? || Find(Carve(i, o), i, y).free
    decreases i
  {
    if o < i && y < Pow2(i - 1) { CarveLive(i - 1, o, y); }
  }

  /** Putting anything but a free block in place keeps the pool coalesced. */
  lemma {:induction false} PutCoalesced(t: Tree, h: nat, x: nat, k: nat, s: Tree)
    requires Fits(t, h) && Has(t, h, x, k) && Fits(s, k) && Coalesced(t) && Coalesced(s) && !s.Free?
    ensures Coalesced(Put(t, h, x, k, s)) && !Put(t, h, x, k, s).Free?
    decreases h
  {
    if k != h {
      if x < Pow2(h - 1) {
        PutCoalesced(t.l, h - 1, x, k, s);
      } else {
        PutCoalesced(t.r, h - 1, x - Pow2(h - 1), k, s);
      }
    }
  }

  /** Freeing keeps the pool coalesced and gives back exactly the block's size. */
  lemma {:induction false} FreeAtShape(t: Tree, h: nat, x: nat)
    requires Fits(t, h) && Coalesced(t) && Find(t, h, x).Block? && !Find(t, h, x).free
    ensures Coalesced(FreeAt(t, h, x))
    ensures InUse(FreeAt(t, h, x), h) == InUse(t, h) - Pow2(Find(t, h, x).height)
    decreases h
  {
    if t.Node? {
      if x < Pow2(h - 1) { FreeAtShape(t.l, h - 1, x); } else { FreeAtShape(t.r, h - 1, x - Pow2(h - 1)); }
    }
  }

  predicate LiveAt(t: Tree, h: nat, x: nat, k: nat)
    requires Fits(t, h)
  {
    Find(t, h, x) == Block(k, false)
  }

  /** Freeing takes the block at `x` out of the live blocks and leaves all others where they are. */
  lemma {:induction false} FreeAtLive(t: Tree, h: nat, x: nat, y: nat, k: nat)
    requires Fits(t, h) && Find(t, h, x).Block? && !Find(t, h, x).free && y < Pow2(h)
    ensures LiveAt(FreeAt(t, h, x), h, y, k) <==> y != x && LiveAt(t, h, y, k)
    decreases h
  {
    if t.Node? {
      var half := Pow2(h - 1);
      var u := FreeAt(t, h, x);
      if x < half {
        if y < half { FreeAtLive(t.l, h - 1, x, y, k); } else { NoLive(t.r, h - 1, y - half, k); }
      } else {
        if y < half { NoLive(t.l, h - 1, y, k); } else { FreeAtLive(t.r, h - 1, x - half, y - half, k); }
      }
    }
  }

  lemma NoLive(t: Tree, h: nat, y: nat, k: nat)
    requires Fits(t, h)
    ensures t.Free? ==> !LiveAt(t, h, y, k)
  {}

  /** Allocating adds one live block and leaves all others where they are. */
  lemma AllocLive(t: Tree, h: nat, x: nat, i: nat, o: nat, y: nat, k: nat)
    requires Fits(t, h) && Find(t, h, x) == Block(i, true) && o <= i && y < Pow2(h)
    ensures Has(t, h, x, i)
    ensures LiveAt(Put(t, h, x, i, Carve(i, o)), h, y, k) <==> (y == x && k == o) || LiveAt(t, h, y, k)
  {
    BlockIsLeaf(t, h, x);
    FindPut(t, h, x, i, Carve(i, o), y);
    CarveShape(i, o);
    if x < y < x + Pow2(i) { CarveLive(i, o, y - x); InsideBlock(t, h, x, i, y); }
  }

  /** No block starts inside another. */
  lemma {:induction false} InsideBlock(t: Tree, h: nat, x: nat, k: nat, y: nat)
    requires Fits(t, h) && Has(t, h, x, k) && !Sub(t, h, x, k).Node? && x < y < x + Pow2(k)
    ensures Find(t, h, y) == Inside
    decreases h
  {
    if k != h {
      if x < Pow2(h - 1) {
        HasBound(t.l, h - 1, x, k);
        InsideBlock(t.l, h - 1, x, k, y);
      } else {
        InsideBlock(t.r, h - 1, x - Pow2(h - 1), k, y - Pow2(h - 1));
      }
    }
  }

  /** Freeing a block whose buddy is free amounts to freeing the two as one. */
  lemma {:induction false} MergeStep(t: Tree, h: nat, x: nat, k: nat)
    requires Fits(t, h) && k < h && Has(t, h, x, k) && Sub(t, h, x, k) == Live
    requires var y := Flip(x, k); y >= 0 && Has(t, h, y, k) && Sub(t, h, y, k) == Free
    ensures var p := if Bit(x, k) then Flip(x, k) else x;
            Has(t, h, p, k + 1) && FreeAt(t, h, x) == FreeAt(Put(t, h, p, k + 1, Live), h, p)
    decreases h
  {
    Buddies(t, h, x, k);
    var half := Pow2(h - 1);
    HasBound(t, h, x, k);
    if k == h - 1 {
      TopBit(x, k);
    } else if x < half {
      HasBound(t.l, h - 1, x, k);
      Buddies(t.l, h - 1, x, k);
      MergeStep(t.l, h - 1, x, k);
    } else {
      BitAddHigh(x - half, k, h - 1);
      Buddies(t.r, h - 1, x - half, k);
      MergeStep(t.r, h - 1, x - half, k);
    }
  }

  /** Freeing a block whose buddy is not a free block of the same size changes nothing else. */
  lemma {:induction false} MergeStop(t: Tree, h: nat, x: nat, k: nat)
    requires Fits(t, h) && Has(t, h, x, k) && Sub(t, h, x, k) == Live
    requires k < h ==> var y := Flip(x, k); y >= 0 && Has(t, h, y, k) && Sub(t, h, y, k) != Free
    ensures FreeAt(t, h, x) == Put(t, h, x, k, Free)
    ensures k < h ==> Put(t, h, x, k, Free).Node?
    decreases h
  {
    HasBound(t, h, x, k);
    if k < h {
      var half := Pow2(h - 1);
      if k == h - 1 {
        TopBit(x, k);
      } else if x < half {
        HasBound(t.l, h - 1, x, k);
        Buddies(t.l, h - 1, x, k);
        MergeStop(t.l, h - 1, x, k);
      } else {
        BitAddHigh(x - half, k, h - 1);
        Buddies(t.r, h - 1, x - half, k);
        MergeStop(t.r, h - 1, x - half, k);
      }
    }
  }

  /** Freeing a block right after its allocation restores the pool. */
  lemma {:induction false} FreeUndoesAlloc(t: Tree, h: nat, x: nat, i: nat, o: nat)
    requires Fits(t, h) && Coalesced(t) && Find(t, h, x) == Block(i, true) && o <= i
    ensures Has(t, h, x, i)
    ensures FreeAt(Put(t, h, x, i, Carve(i, o)), h, x) == t
    decreases h
  {
    BlockIsLeaf(t, h, x);
    CarveShape(i, o);
    if t.Node? {
      HasBound(t, h, x, i);
      if x < Pow2(h - 1) {
        FreeUndoesAlloc(t.l, h - 1, x, i, o);
      } else {
        FreeUndoesAlloc(t.r, h - 1, x - Pow2(h - 1), i, o);
      }
    }
  }

  /** Splitting the live block at the start of a carved tree once more. */
  lemma {:induction false} CarveStep(i: nat, c: nat)
    requires 0 < c <= i
    ensures Has(Carve(i, c), i, 0, c) && Sub(Carve(i, c), i, 0, c) == Live && Fits(Node(Live, Free), c)
    ensures Put(Carve(i, c), i, 0, c, Node(Live, Free)) == Carve(i, c - 1)
    decreases i
  {
    assert Fits(Live, c - 1) && Fits(Free, c - 1);
    if c < i { CarveStep(i - 1, c); }
  }

  lemma {:induction false} PutInPut(t: Tree, h: nat, x: nat, i: nat, s: Tree, c: nat, u: Tree)
    requires Fits(t, h) && Has(t, h, x, i) && Fits(s, i) && Has(s, i, 0, c) && Fits(u, c) && c <= i
    ensures Has(Put(t, h, x, i, s), h, x, c) && Sub(Put(t, h, x, i, s), h, x, c) == Sub(s, i, 0, c)
    ensures Put(Put(t, h, x, i, s), h, x, c, u) == Put(t, h, x, i, Put(s, i, 0, c, u))
    decreases h
  {
    HasBound(t, h, x, i);
    if i != h {
      if x < Pow2(h - 1) {
        PutInPut(t.l, h - 1, x, i, s, c, u);
      } else {
        PutInPut(t.r, h - 1, x - Pow2(h - 1), i, s, c, u);
      }
    }
  }

  // ---------------------------------------------------------------- tiling

  /** Every position lies in a block. */
  lemma {:induction false} Covered(t: Tree, h: nat, y: nat) returns (x: nat)
    requires Fits(t, h) && y < Pow2(h)
    ensures x <= y && Find(t, h, x).Block? && y < x + Pow2(Find(t, h, x).height) <= Pow2(h)
    decreases h
  {
    if !t.Node? {
      x := 0;
    } else if y < Pow2(h - 1) {
      x := Covered(t.l, h - 1, y);
    } else {
      x := Covered(t.r, h - 1, y - Pow2(h - 1));
      x := x + Pow2(h - 1);
    }
  }

  predicate Multiple(x: nat, k: nat) { x % Pow2(k) == 0 }

  lemma {:induction false} Pow2Add(a: nat, b: nat)
    ensures Pow2(a + b) == Pow2(a) * Pow2(b)
  {
    if a > 0 { Pow2Add(a - 1, b); }
  }

  lemma {:induction false} MultipleAdd(x: nat, k: nat, j: nat)
    requires Multiple(x, k) && k <= j
    ensures Multiple(x + Pow2(j), k)
  {
    Pow2Add(j - k, k);
    hide Pow2;
    var p, q, m := Pow2(k), x / Pow2(k), Pow2(j - k);
    assert x == q * p;
    assert x + m * p == (q + m) * p;
    RemainderIs(x + m * p, p, q + m, 0);
  }

  lemma MultipleZero(k: nat)
    ensures Multiple(0, k)
  {
    RemainderIs(0, Pow2(k), 0, 0);
  }

  /** Every block is aligned to its own size. */
  lemma {:induction false} Aligned(t: Tree, h: nat, x: nat)
    requires Fits(t, h) && Find(t, h, x).Block?
    ensures Multiple(x, Find(t, h, x).height)
    decreases h
  {
    hide Multiple;
    if !t.Node? {
      MultipleZero(h);
    } else {
      if x < Pow2(h - 1) {
        Aligned(t.l, h - 1, x);
      } else {
        Aligned(t.r, h - 1, x - Pow2(h - 1));
        BlockIsLeaf(t.r, h - 1, x - Pow2(h - 1));
        MultipleAdd(x - Pow2(h - 1), Find(t, h, x).height, h - 1);
      }
    }
  }

  /** The block at `x` covers position `y`. */
  predicate InBlock(t: Tree, h: nat, x: nat, y: nat)
    requires Fits(t, h)
  {
    x <= y && Find(t, h, x).Block? && y < x + Pow2(Find(t, h, x).height)
  }

  ghost predicate InSomeBlock(t: Tree, h: nat, y: nat)
    requires Fits(t, h)
  {
    exists x: nat :: InBlock(t, h, x, y)
  }

  /** The blocks tile the pool: aligned, pairwise disjoint, and covering every position. */
  lemma BlocksTile(t: Tree, h: nat)
    requires Fits(t, h)
    ensures forall x: nat | x < Pow2(h) && Find(t, h, x).Block? ::
              Multiple(x, Find(t, h, x).height) && x + Pow2(Find(t, h, x).height) <= Pow2(h)
    ensures forall x: nat, y: nat | x < y < Pow2(h) && Find(t, h, x).Block? && Find(t, h, y).Block? ::
              x + Pow2(Find(t, h, x).height) <= y
    ensures forall y: nat | y < Pow2(h) :: InSomeBlock(t, h, y)
  {
    hide Multiple;
    forall x: nat | x < Pow2(h) && Find(t, h, x).Block?
      ensures Multiple(x, Find(t, h, x).height) && x + Pow2(Find(t, h, x).height) <= Pow2(h)
    {
      Aligned(t, h, x);
      BlockIsLeaf(t, h, x);
    }
    forall x: nat, y: nat | x < y < Pow2(h) && Find(t, h, x).Block? && Find(t, h, y).Block?
      ensures x + Pow2(Find(t, h, x).height) <= y
    {
      BlockIsLeaf(t, h, x);
      if y < x + Pow2(Find(t, h, x).height) { InsideBlock(t, h, x, Find(t, h, x).height, y); }
    }
    forall y: nat | y < Pow2(h) ensures InSomeBlock(t, h, y) {
      var x := Covered(t, h, y);
      assert InBlock(t, h, x, y);
    }
  }
}
