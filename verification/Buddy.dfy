/**
 The buddy allocator of lib/mm.c: bitmap, order table and per-order free lists kept in step with the
 block tree. A block pointer is its index, (addr - base) >> min_order; lists are sequences, head first.
 */
module Buddy {
  import opened Words
  import opened BuddyTree
  import opened KernelList

  /** The allocator's tables; `linked` tells whether the link words of a block are set (non-NULL). */
  datatype Tables = Tables(free: seq<bool>, orders: seq<nat>, linked: seq<bool>, lists: seq<seq<nat>>)

  /** The entries of position `i` tell what stands there; the order entry of `hole` is exempt. */
  ghost predicate EntryOk(m: Tables, t: Tree, h: nat, min: nat, hole: int, i: nat)
    requires Fits(t, h) && i < |m.free| && i < |m.orders| && i < |m.linked|
  {
    var s := Find(t, h, i);
    && m.free[i] == (s.Block? && s.free)
    && (s.Block? && i != hole ==> m.orders[i] == min + s.height)
    && (s.Block? && s.free && s.height < h ==> m.linked[i])
  }

  /** List `k` holds exactly the free blocks of order `k`, without the one at the base. */
  ghost predicate ListOk(m: Tables, t: Tree, h: nat, min: nat, k: nat)
    requires Fits(t, h) && k < |m.lists|
  {
    && NoRepeat(m.lists[k])
    && forall i: nat :: i in m.lists[k] <==> k >= min && 0 < i < Pow2(h) && Find(t, h, i) == Block(k - min, true)
  }

  ghost predicate Describes(m: Tables, t: Tree, h: nat, min: nat, hole: int) {
    && Fits(t, h) && Pow2(h) <= |m.free| && Pow2(h) <= |m.orders| && Pow2(h) <= |m.linked| && min + h < |m.lists|
    && (forall i: nat | i < Pow2(h) :: EntryOk(m, t, h, min, hole, i))
    && (forall k: nat | k <= min + h :: ListOk(m, t, h, min, k))
  }

  // ---------------------------------------------------------------- what the steps do to the tables

  /** mm_merge_blk on the live block `x` and its free buddy `y`, both of order `k`. */
  function Merged(m: Tables, x: nat, y: nat, k: nat): Tables
    requires x < |m.free| && y < |m.free| && x < |m.orders| && y < |m.orders| && k < |m.lists|
    requires y < |m.linked|
  {
    var p := if y < x then y else x;
    Tables(m.free[y := false][p := false], m.orders[y := 0][p := k + 1], m.linked[y := false],
           m.lists[k := Without(m.lists[k], y)])
  }

  lemma MergedDescribes(m: Tables, t: Tree, h: nat, min: nat, x: nat, c: nat)
    requires Describes(m, t, h, min, -1) && c < h && x < Pow2(h) && LiveAt(t, h, x, c)
    requires Flip(x, c) >= 0 && Find(t, h, Flip(x, c)) == Block(c, true)
    ensures var y := Flip(x, c); var p := if y < x then y else x;
            && y < Pow2(h) && Has(t, h, p, c + 1)
            && Describes(Merged(m, x, y, min + c), Put(t, h, p, c + 1, Live), h, min, -1)
  {
    var y := Flip(x, c);
    var p := if y < x then y else x;
    BlockIsLeaf(t, h, x);
    BlockIsLeaf(t, h, y);
    Buddies(t, h, x, c);
    var u := Put(t, h, p, c + 1, Live);
    var m' := Merged(m, x, y, min + c);
    forall i: nat | i < Pow2(h)
      ensures Find(u, h, i) ==
                if i == p then Block(c + 1, false) else if i == x || i == y then Inside else Find(t, h, i)
    {
      FindPut(t, h, p, c + 1, Live, i);
      if x < i < x + Pow2(c) { InsideBlock(t, h, x, c, i); }
      if y < i < y + Pow2(c) { InsideBlock(t, h, y, c, i); }
    }
    MergedTables(m, t, h, min, x, y, p, c, u);
  }

  lemma {:induction false} MergedTables(m: Tables, t: Tree, h: nat, min: nat, x: nat, y: nat, p: nat, c: nat, u: Tree)
    requires Describes(m, t, h, min, -1) && c < h && x < Pow2(h) && y < Pow2(h) && x != y
    requires p == (if y < x then y else x) && LiveAt(t, h, x, c) && Find(t, h, y) == Block(c, true) && Fits(u, h)
    requires forall i: nat | i < Pow2(h) ::
               Find(u, h, i) ==
                 if i == p then Block(c + 1, false) else if i == x || i == y then Inside else Find(t, h, i)
    ensures Describes(Merged(m, x, y, min + c), u, h, min, -1)
  {
    hide Find, Without, Pow2, ListOk, EntryOk;
    var m' := Merged(m, x, y, min + c);
    forall i: nat | i < Pow2(h) ensures EntryOk(m', u, h, min, -1, i) {
      assert EntryOk(m, t, h, min, -1, i);
      MergedEntry(m, t, h, min, x, y, p, c, u, i);
    }
    forall k: nat | k <= min + h ensures ListOk(m', u, h, min, k) {
      assert ListOk(m, t, h, min, k);
      MergedList(m, t, h, min, x, y, p, c, u, k);
    }
  }

  lemma MergedEntry(m: Tables, t: Tree, h: nat, min: nat, x: nat, y: nat, p: nat, c: nat, u: Tree, i: nat)
    requires Fits(t, h) && Fits(u, h) && c < h && x < Pow2(h) && y < Pow2(h) && i < Pow2(h) && x != y
             && min + c < |m.lists|
    requires Pow2(h) <= |m.free| && Pow2(h) <= |m.orders| && Pow2(h) <= |m.linked| && EntryOk(m, t, h, min, -1, i)
    requires p == (if y < x then y else x) && LiveAt(t, h, x, c) && Find(t, h, y) == Block(c, true)
    requires Find(u, h, i) == if i == p then Block(c + 1, false) else if i == x || i == y then Inside else Find(t, h, i)
    ensures EntryOk(Merged(m, x, y, min + c), u, h, min, -1, i)
  {
    hide Find, Without, Pow2;
  }

  lemma MergedList(m: Tables, t: Tree, h: nat, min: nat, x: nat, y: nat, p: nat, c: nat, u: Tree, k: nat)
    requires Fits(t, h) && Fits(u, h) && c < h && x < Pow2(h) && y < Pow2(h) && x != y && k <= min + h < |m.lists|
    requires Pow2(h) <= |m.free| && Pow2(h) <= |m.orders| && Pow2(h) <= |m.linked| && ListOk(m, t, h, min, k)
    requires p == (if y < x then y else x) && LiveAt(t, h, x, c) && Find(t, h, y) == Block(c, true)
    requires forall i: nat | i < Pow2(h) ::
               Find(u, h, i) ==
                 if i == p then Block(c + 1, false) else if i == x || i == y then Inside else Find(t, h, i)
    ensures ListOk(Merged(m, x, y, min + c), u, h, min, k)
  {
    hide Find, Without, Pow2;
    if k == min + c {
      WithoutIs(m.lists[k], y);
    }
  }

  /** mm_split_blk on the upper half `x`, and the end of mm_upmerge_blks: a free block of order `k` appears. */
  function Added(m: Tables, x: nat, k: nat): Tables
    requires x < |m.free| && x < |m.orders| && x < |m.linked| && k < |m.lists|
  {
    var n := Tables(m.free[x := true], m.orders[x := k], m.linked, m.lists);
    if x == 0 then n else n.(linked := m.linked[x := true], lists := m.lists[k := [x] + m.lists[k]])
  }

  /** Adding a free block; a live block at `hole` may change its height meanwhile. */
  lemma AddedDescribes(m: Tables, t: Tree, h: nat, min: nat, hole: int, x: nat, c: nat, u: Tree)
    requires Describes(m, t, h, min, hole) && c <= h && x < Pow2(h) && x != hole && Fits(u, h)
    requires !m.free[x] && Find(u, h, x) == Block(c, true) && (x == 0 && c < h ==> m.linked[0])
    requires forall i: nat | i < Pow2(h) && i != x ::
               if i == hole then Find(u, h, i).Block? && !Find(u, h, i).free && !m.free[i]
               else Find(u, h, i) == Find(t, h, i)
    ensures Describes(Added(m, x, min + c), u, h, min, hole)
  {
    hide Find;
    var m' := Added(m, x, min + c);
    forall i: nat | i < Pow2(h) ensures EntryOk(m', u, h, min, hole, i) {
      assert EntryOk(m, t, h, min, hole, i);
    }
    assert EntryOk(m, t, h, min, hole, x);
    forall k: nat | k <= min + h ensures ListOk(m', u, h, min, k) {
      assert ListOk(m, t, h, min, k);
      forall i: nat | k >= min && 0 < i < Pow2(h) && i != x
        ensures Find(u, h, i) == Block(k - min, true) <==> Find(t, h, i) == Block(k - min, true)
      {
        assert EntryOk(m, t, h, min, hole, i);
      }
      assert x !in m.lists[k];
    }
  }

  /** mm_alloc taking the free block `x` off list `k`; the block at the base is on no list. */
  function Taken(m: Tables, x: nat, k: nat, order: nat): Tables
    requires x < |m.free| && x < |m.orders| && x < |m.linked| && k < |m.lists|
  {
    var n := Tables(m.free[x := false], m.orders[x := order], m.linked, m.lists);
    if x == 0 then n else n.(linked := m.linked[x := false], lists := m.lists[k := Without(m.lists[k], x)])
  }

  lemma TakenDescribes(m: Tables, t: Tree, h: nat, min: nat, x: nat, c: nat, order: nat, u: Tree)
    requires Describes(m, t, h, min, -1) && x < Pow2(h) && Find(t, h, x) == Block(c, true) && c <= h && Fits(u, h)
    requires forall i: nat | i < Pow2(h) :: Find(u, h, i) == if i == x then Block(c, false) else Find(t, h, i)
    ensures Describes(Taken(m, x, min + c, order), u, h, min, x)
  {
    hide Find, Without;
    var m' := Taken(m, x, min + c, order);
    forall i: nat | i < Pow2(h) ensures EntryOk(m', u, h, min, x, i) {
      assert EntryOk(m, t, h, min, -1, i);
    }
    assert ListOk(m, t, h, min, min + c);
    WithoutIs(m.lists[min + c], x);
    forall k: nat | k <= min + h ensures ListOk(m', u, h, min, k) {
      assert ListOk(m, t, h, min, k);
    }
  }

  /** INIT_LIST_HEAD on the block `x`. */
  lemma InitDescribes(m: Tables, t: Tree, h: nat, min: nat, hole: int, x: nat)
    requires Describes(m, t, h, min, hole) && x < Pow2(h)
    ensures Describes(m.(linked := m.linked[x := true]), t, h, min, hole)
  {
    hide Find;
    var m' := m.(linked := m.linked[x := true]);
    forall i: nat | i < Pow2(h) ensures EntryOk(m', t, h, min, hole, i) { assert EntryOk(m, t, h, min, hole, i); }
    forall k: nat | k <= min + h ensures ListOk(m', t, h, min, k) { assert ListOk(m, t, h, min, k); }
  }

  class Pool {
    var base: nat
    var maxOrder: nat
    var minOrder: nat
    var nBlks: nat
    var allocBlks: nat
    const allocOrder: array<nat>
    const blkFree: array<bool>
    const linkSet: array<bool>
    var blockOrder: seq<seq<nat>>
    ghost var tree: Tree
    ghost var size: nat   // bytes of memory behind `base`

    /** The storage comes preconfigured; its content does not matter. */
    constructor (allocOrder: array<nat>, blkFree: array<bool>, linkSet: array<bool>)
      requires blkFree != linkSet
      ensures this.allocOrder == allocOrder && this.blkFree == blkFree && this.linkSet == linkSet
    {
      this.allocOrder, this.blkFree, this.linkSet := allocOrder, blkFree, linkSet;
      base, maxOrder, minOrder, nBlks, allocBlks, blockOrder, tree := 0, 0, 0, 0, 0, [], Free;
      size := 0;
    }

    ghost function T(): Tables
      reads this, allocOrder, blkFree, linkSet
    {
      Tables(blkFree[..], allocOrder[..], linkSet[..], blockOrder)
    }

    ghost function H(): nat
      requires minOrder <= maxOrder
      reads this
    {
      maxOrder - minOrder
    }

    ghost predicate Shape()
      reads this
    {
      1 <= minOrder <= maxOrder && nBlks == Pow2(H()) && blkFree != linkSet
    }

    /** The tables describe the tree; the order entry of `hole` is exempt. */
    ghost predicate Described(hole: int)
      reads this, allocOrder, blkFree, linkSet
    {
      Shape() && Describes(T(), tree, H(), minOrder, hole)
    }

    ghost predicate Valid()
      reads this, allocOrder, blkFree, linkSet
    {
      Described(-1) && Coalesced(tree) && allocBlks == InUse(tree, H()) && Pow2(maxOrder) <= size
    }

    /** mm_split_blk: the upper half of the block `blk`, of order `order`, becomes free. */
    method SplitBlk(blk: nat, order: nat)
      requires Described(blk) && minOrder <= order < maxOrder && blk < nBlks
      requires LiveAt(tree, H(), blk, order - minOrder + 1)
      modifies this`blockOrder, this`tree, allocOrder, blkFree, linkSet
      ensures Described(blk) && allocOrder[blk] == old(allocOrder[blk])
      ensures Has(old(tree), H(), blk, order - minOrder + 1)
      ensures Fits(Node(Live, Free), order - minOrder + 1)
      ensures tree == Put(old(tree), H(), blk, order - minOrder + 1, Node(Live, Free))
      ensures order < |old(blockOrder)|
      ensures blockOrder == old(blockOrder)[order := [blk + Pow2(order - minOrder)] + old(blockOrder)[order]]
    {
      hide Has, Sub, Put, Pow2;
      ghost var c, m := order - minOrder, T();
      BlockIsLeaf(tree, H(), blk);
      HalvesFit(c + 1);
      ghost var u := Put(tree, H(), blk, c + 1, Node(Live, Free));
      var upper := blk + Pow2(order - minOrder);
      SplitFinds(tree, H(), blk, c, u);
      assert EntryOk(m, tree, H(), minOrder, blk, blk) && EntryOk(m, tree, H(), minOrder, blk, upper);
      AddedDescribes(m, tree, H(), minOrder, blk, upper, c, u);
      allocOrder[upper] := order;
      blkFree[upper] := true;
      linkSet[upper] := true;
      blockOrder := blockOrder[order := [upper] + blockOrder[order]];
      tree := u;
      assert T() == Added(m, upper, order);
    }

    /** mm_merge_blk: join the live block `blk` with its buddy if that is a free block of the same order. */
    method MergeBlk(blk: nat, order: nat) returns (merged: bool, at: nat)
      requires Described(-1) && minOrder <= order < maxOrder && blk < nBlks
      requires LiveAt(tree, H(), blk, order - minOrder)
      modifies this`blockOrder, this`tree, allocOrder, blkFree, linkSet
      ensures Described(-1) && Flip(blk, order - minOrder) >= 0
      ensures merged <==> Find(old(tree), H(), Flip(blk, order - minOrder)) == Block(order - minOrder, true)
      ensures !merged ==> tree == old(tree) && linkSet[blk]
      ensures merged ==> at == if Bit(blk, order - minOrder) then Flip(blk, order - minOrder) else blk
      ensures merged ==> Has(old(tree), H(), at, order - minOrder + 1)
      ensures merged ==> tree == Put(old(tree), H(), at, order - minOrder + 1, Live)
      ensures forall i: nat
                | i < nBlks && i != Flip(blk, order - minOrder) && (i != blk || Bit(blk, order - minOrder)) ::
                allocOrder[i] == old(allocOrder[i])
    {
      hide Has, Sub, Put, Without, Find, ListOk, EntryOk, Pow2;
      ghost var c := order - minOrder;
      BlockIsLeaf(tree, H(), blk);
      Buddies(tree, H(), blk, c);
      InitDescribes(T(), tree, H(), minOrder, -1, blk);
      ghost var m := T().(linked := T().linked[blk := true]);
      linkSet[blk] := true;
      assert T() == m;
      var n: nat := Flip(blk, order - minOrder);
      BuddyEntry(m, tree, H(), minOrder, n, c);
      if !blkFree[n] || allocOrder[n] != order || !linkSet[n] {
        return false, blk;
      }
      MergedDescribes(m, tree, H(), minOrder, blk, c);
      linkSet[n] := false;
      blockOrder := blockOrder[order := Without(blockOrder[order], n)];
      at := if n < blk then n else blk;
      allocOrder[n] := 0;
      allocOrder[at] := order + 1;
      blkFree[n] := false;
      blkFree[at] := false;
      tree := Put(tree, H(), at, c + 1, Live);
      assert T() == Merged(m, blk, n, order);
      merged := true;
    }

    /** The block at the base is never linked. */
    method LinkFree(blk: nat, order: nat)
      requires Described(-1) && minOrder <= order <= maxOrder && blk < nBlks && LiveAt(tree, H(), blk, order - minOrder)
      requires blk == 0 && order < maxOrder ==> linkSet[0]
      modifies this`blockOrder, this`tree, allocOrder, blkFree, linkSet
      ensures Described(-1) && Has(old(tree), H(), blk, order - minOrder)
      ensures tree == Put(old(tree), H(), blk, order - minOrder, Free)
      ensures forall i: nat | i < nBlks && i != blk :: allocOrder[i] == old(allocOrder[i])
      ensures order < |old(blockOrder)|
      ensures blockOrder ==
                if blk == 0 then old(blockOrder) else old(blockOrder)[order := [blk] + old(blockOrder)[order]]
    {
      hide Has, Sub, Put, Find, Pow2, ListOk;
      ghost var c, m := order - minOrder, T();
      BlockIsLeaf(tree, H(), blk);
      ghost var u := Put(tree, H(), blk, c, Free);
      LeafFinds(tree, H(), blk, c, Free);
      assert EntryOk(m, tree, H(), minOrder, -1, blk);
      AddedDescribes(m, tree, H(), minOrder, -1, blk, c, u);
      blkFree[blk] := true;
      allocOrder[blk] := order;
      if blk != 0 {
        linkSet[blk] := true;
        blockOrder := blockOrder[order := [blk] + blockOrder[order]];
      }
      tree := u;
      assert T() == Added(m, blk, order);
    }

    /** One turn of mm_upmerge_blks; `down` tells that the block at `start` has merged downwards, or will now. */
    method MergeTurn(blk: nat, order: nat, ghost start: nat, ghost down: bool) returns (merged: bool, at: nat)
      requires Described(-1) && minOrder <= order < maxOrder && blk < nBlks && start < nBlks
      requires LiveAt(tree, H(), blk, order - minOrder)
      requires down && blk == start ==> MergesDown(tree, H(), start)
      requires down && blk != start ==> blk < start < blk + Pow2(order - minOrder)
      modifies this`blockOrder, this`tree, allocOrder, blkFree, linkSet
      ensures Described(-1) && Flip(blk, order - minOrder) >= 0 && (down && blk == start ==> merged)
      ensures merged ==> at < nBlks && LiveAt(tree, H(), at, order - minOrder + 1)
      ensures merged ==> FreeAt(tree, H(), at) == FreeAt(old(tree), H(), blk)
      ensures merged && down ==> at < start < at + Pow2(order - minOrder + 1)
      ensures !merged ==> tree == old(tree) && linkSet[blk]
      ensures !merged ==> Find(tree, H(), Flip(blk, order - minOrder)) != Block(order - minOrder, true)
      ensures down ==> allocOrder[start] == old(allocOrder[start])
    {
      hide Has, Sub, Put, FreeAt, MergesDown, EntryOk, ListOk;
      ghost var was, c := tree, order - minOrder;
      if down {
        if blk == start {
          DownFacts(tree, H(), start);
        }
        StaysInside(blk, c, start);
      }
      merged, at := MergeBlk(blk, order);
      if merged {
        MergedOn(was, H(), blk, c, at);
      }
    }

    /** mm_upmerge_blks: free the live block `start` and coalesce. */
    method UpMergeBlks(start: nat)
      requires Described(-1) && start < nBlks && Find(tree, H(), start).Block? && !Find(tree, H(), start).free
      modifies this`blockOrder, this`tree, allocOrder, blkFree, linkSet
      ensures Described(-1) && tree == FreeAt(old(tree), H(), start)
      ensures MergesDown(old(tree), H(), start) ==> allocOrder[start] == old(allocOrder[start])
    {
      hide Has, Sub, Put, FreeAt, MergesDown, EntryOk, ListOk, Find, Pow2, Flip;
      ghost var c0, down := Find(tree, H(), start).height, MergesDown(tree, H(), start);
      if down {
        DownFacts(tree, H(), start);
      }
      var blk: nat := start;
      OrderEntry(T(), tree, H(), minOrder, start);
      BlockIsLeaf(tree, H(), start);
      var order := allocOrder[start];
      var done := false;
      while order < maxOrder && !done
        invariant Described(-1) && minOrder <= order <= maxOrder && blk < nBlks
        invariant LiveAt(tree, H(), blk, order - minOrder)
        invariant FreeAt(tree, H(), blk) == FreeAt(old(tree), H(), start)
        invariant down && blk == start ==> tree == old(tree) && order - minOrder == c0 < H() && !done
        invariant down && blk != start ==> blk < start < blk + Pow2(order - minOrder)
        invariant down ==> allocOrder[start] == old(allocOrder[start])
        invariant done ==> order < maxOrder && linkSet[blk] && Flip(blk, order - minOrder) >= 0
        invariant done ==> Find(tree, H(), Flip(blk, order - minOrder)) != Block(order - minOrder, true)
        decreases maxOrder - order, !done
      {
        var merged, tmp := MergeTurn(blk, order, start, down);
        if merged {
          blk := tmp;
          order := order + 1;
        } else {
          done := true;
        }
      }
      ghost var c := order - minOrder;
      MergedAll(tree, H(), blk, c);
      LinkFree(blk, order);
    }

    /** The tables say that there is nothing to free at `blk`. */
    predicate Refuses(blk: nat)
      requires blk < blkFree.Length && blk < allocOrder.Length
      reads this, blkFree, allocOrder
    {
      blkFree[blk] || allocOrder[blk] == 0 || allocOrder[blk] > maxOrder
    }

    /** The same for an address. */
    predicate RefusesAt(addr: nat)
      reads this, blkFree, allocOrder
    {
      base <= addr && var blk := (addr - base) / Pow2(minOrder);
                      0 <= blk < blkFree.Length && blk < allocOrder.Length && Refuses(blk)
    }

    /** The part of mm_free behind the address checks: `blk` starts a block, or is refused. */
    method FreeIdx(blk: nat)
      requires Valid() && blk < nBlks && (Find(tree, H(), blk).Block? || Refuses(blk))
      modifies this`blockOrder, this`tree, this`allocBlks, allocOrder, blkFree, linkSet
      ensures Valid()
      ensures old(Find(tree, H(), blk).Block?) ==> (old(Refuses(blk)) <==> old(Find(tree, H(), blk).free))
      ensures old(Refuses(blk)) ==> tree == old(tree) && T() == old(T()) && allocBlks == old(allocBlks)
      ensures !old(Refuses(blk)) ==> tree == FreeAt(old(tree), H(), blk)
      ensures !old(Refuses(blk)) && MergesDown(old(tree), H(), blk) ==> allocOrder[blk] == old(allocOrder[blk])
    {
      if Find(tree, H(), blk).Block? {
        assert EntryOk(T(), tree, H(), minOrder, -1, blk);
        BlockIsLeaf(tree, H(), blk);
      }
      var order := allocOrder[blk];
      if blkFree[blk] || order == 0 || order > maxOrder {
        return;
      }
      order := if order < minOrder then minOrder else order;
      FreeAtShape(tree, H(), blk);
      UpMergeBlks(blk);
      allocBlks := allocBlks - Pow2(order - minOrder);
    }

    /** The search for the first list, from `order` on, that is not empty. */
    method FindList(order: nat) returns (i: nat)
      requires Described(-1) && minOrder <= order <= maxOrder
      ensures order <= i <= maxOrder + 1 && (i <= maxOrder ==> blockOrder[i] != [])
      ensures forall k: nat | order <= k < i :: blockOrder[k] == []
    {
      i := order;
      while i <= maxOrder && blockOrder[i] == []
        invariant order <= i <= maxOrder + 1
        invariant forall k: nat | order <= k < i :: blockOrder[k] == []
      {
        i := i + 1;
      }
    }

    /** Take the free block `blk` of order `i` out of the tables, for an allocation of order `order`. */
    method Take(blk: nat, i: nat, order: nat)
      requires Described(-1) && minOrder <= i <= maxOrder && blk < nBlks
      requires Find(tree, H(), blk) == Block(i - minOrder, true)
      requires blk != 0 ==> blockOrder[i] != [] && blockOrder[i][0] == blk
      modifies this`blockOrder, this`tree, allocOrder, blkFree, linkSet
      ensures Described(blk) && allocOrder[blk] == order
      ensures Has(old(tree), H(), blk, i - minOrder) && tree == Put(old(tree), H(), blk, i - minOrder, Live)
    {
      hide Has, Sub, Put, EntryOk, ListOk, Find;
      ghost var m, c := T(), i - minOrder;
      BlockIsLeaf(tree, H(), blk);
      LeafFinds(tree, H(), blk, c, Live);
      ghost var u := Put(tree, H(), blk, c, Live);
      TakenDescribes(m, tree, H(), minOrder, blk, c, order, u);
      if blk != 0 {
        linkSet[blk] := false;
        blockOrder := blockOrder[i := blockOrder[i][1..]];
      }
      blkFree[blk] := false;
      allocOrder[blk] := order;
      tree := u;
      assert T() == Taken(m, blk, i, order);
    }

    /** Carve a block of order `order` out of the free block `blk` of order `top`. */
    method Grab(blk: nat, top: nat, order: nat)
      requires Described(-1) && minOrder <= order <= top <= maxOrder && blk < nBlks
      requires Find(tree, H(), blk) == Block(top - minOrder, true)
      requires blk != 0 ==> blockOrder[top] != [] && blockOrder[top][0] == blk
      modifies this`blockOrder, this`tree, allocOrder, blkFree, linkSet
      ensures Described(-1) && Has(old(tree), H(), blk, top - minOrder)
      ensures tree == Put(old(tree), H(), blk, top - minOrder, Carve(top - minOrder, order - minOrder))
    {
      hide Find, Sub, Has, Put;
      ghost var t, c := tree, top - minOrder;
      BlockIsLeaf(t, H(), blk);
      Take(blk, top, order);
      var i := top;
      CarvedFind(t, H(), blk, c, c);
      while order < i
        invariant order <= i <= top && Described(blk) && allocOrder[blk] == order
        invariant tree == Put(t, H(), blk, c, Carve(c, i - minOrder)) && LiveAt(tree, H(), blk, i - minOrder)
      {
        CarveStep(c, i - minOrder);
        HalvesFit(i - minOrder);
        PutInPut(t, H(), blk, c, Carve(c, i - minOrder), i - minOrder, Node(Live, Free));
        i := i - 1;
        SplitBlk(blk, i);
        CarvedFind(t, H(), blk, c, i - minOrder);
      }
      FillHole(T(), tree, H(), minOrder, blk);
    }

    /** mm_alloc behind the size checks; `order` is the order wanted. */
    method AllocIdx(order: nat) returns (found: bool, blk: nat, top: nat)
      requires Valid() && minOrder <= order <= maxOrder
      modifies this`blockOrder, this`tree, this`allocBlks, allocOrder, blkFree, linkSet
      ensures Valid()
      ensures !found <==> old(allocBlks) > 0 && NoneLinked(old(tree), H(), order - minOrder)
      ensures !found ==> tree == old(tree) && T() == old(T()) && allocBlks == old(allocBlks)
      ensures found ==> blk < nBlks && order <= top <= maxOrder
      ensures found ==> Find(old(tree), H(), blk) == Block(top - minOrder, true)
      ensures found ==> (blk == 0 <==> old(allocBlks) == 0)
      ensures found && old(allocBlks) > 0 ==> BestFit(old(tree), H(), order - minOrder, top - minOrder)
      ensures found ==> Has(old(tree), H(), blk, top - minOrder)
      ensures found ==> tree == Put(old(tree), H(), blk, top - minOrder, Carve(top - minOrder, order - minOrder))
      ensures found ==> allocBlks == old(allocBlks) + Pow2(order - minOrder)
      ensures found && old(allocBlks) > 0 ==> Offered(old(blockOrder), order, top, blk)
    {
      hide Has, Sub, Put, Carve, Coalesced, NoneLinked, BestFit, EntryOk;
      ghost var t, m := tree, T();
      if allocBlks != 0 {
        top := FindList(order);
        EmptyLists(m, t, H(), minOrder, order, top);
        if top > maxOrder {
          return false, 0, 0;
        }
        blk := blockOrder[top][0];
        assert ListOk(m, t, H(), minOrder, top) && blk in blockOrder[top];
      } else {
        UnusedIsOneBlock(tree, H());
        blk, top := 0, maxOrder;
      }
      CarvedPool(t, H(), blk, top - minOrder, order - minOrder);
      Grab(blk, top, order);
      allocBlks := allocBlks + Pow2(order - minOrder);
      found := true;
    }

    ghost predicate Unchanged(m: Tables, t: Tree, a: nat)
      reads this, allocOrder, blkFree, linkSet
    {
      T() == m && tree == t && allocBlks == a
    }

    /** mm_free of the start of a block, or of an address that the tables refuse. */
    method MmFree(addr: nat)
      requires Valid() && base > 0
      requires base <= addr < base + Pow2(maxOrder) ==>
                 BlockStart(tree, H(), minOrder, addr - base) || RefusesAt(addr)
      modifies this`blockOrder, this`tree, this`allocBlks, allocOrder, blkFree, linkSet
      ensures Valid()
      ensures addr == 0 || addr < base || base + Pow2(maxOrder) <= addr ==>
                Unchanged(old(T()), old(tree), old(allocBlks))
      ensures base <= addr < base + Pow2(maxOrder) && old(RefusesAt(addr)) ==>
                Unchanged(old(T()), old(tree), old(allocBlks))
      ensures base <= addr < base + Pow2(maxOrder) && old(BlockStart(tree, H(), minOrder, addr - base)) ==>
                var blk := (addr - base) / Pow2(minOrder);
                && (old(RefusesAt(addr)) <==> old(Find(tree, H(), blk).free))
                && (!old(RefusesAt(addr)) ==> tree == FreeAt(old(tree), H(), blk))
                && (!old(RefusesAt(addr)) && MergesDown(old(tree), H(), blk) ==>
                      allocOrder[blk] == old(allocOrder[blk]))
    {
      if addr == 0 || addr < base || addr >= base + Pow2(maxOrder) {
        return;
      }
      IndexBound(addr - base, maxOrder, minOrder);
      FreeIdx((addr - base) / Pow2(minOrder));
    }

    /** mm_alloc; 0 stands for NULL. */
    method MmAlloc(size: nat) returns (addr: nat)
      requires Valid() && base > 0
      modifies this`blockOrder, this`tree, this`allocBlks, allocOrder, blkFree, linkSet
      ensures Valid()
      ensures addr == 0 ==> Unchanged(old(T()), old(tree), old(allocBlks))
      ensures size == 0 || size > Pow2(maxOrder) ==> addr == 0
      ensures 0 < size <= Pow2(maxOrder) ==>
                (addr == 0 <==> old(allocBlks) > 0 && NoneLinked(old(tree), H(), Wanted(size, minOrder)))
      ensures addr != 0 ==> 0 < size && base <= addr < base + Pow2(maxOrder)
      ensures addr != 0 ==> IsAlloc(old(tree), tree, H(), minOrder, addr - base, Wanted(size, minOrder))
      ensures addr != 0 ==> Served(tree, H(), minOrder, addr - base, size)
      ensures addr != 0 && old(allocBlks) > 0 ==>
                OfferedAt(old(blockOrder), minOrder + Wanted(size, minOrder), minOrder, addr - base)
      ensures addr != 0 ==> addr + size <= base + this.size
    {
      hide Put, Carve, Has, BestFit, NoneLinked, Coalesced, InUse, Length, Pow2, Find, IsAlloc, EntryOk, ListOk;
      hide Served, Offered, OfferedAt;
      if size == 0 {
        return 0;
      }
      var order := Length(size - 1);
      OrderFits(size, maxOrder);
      if order > maxOrder {
        return 0;
      }
      order := if order < minOrder then minOrder else order;
      var found, blk, top := AllocIdx(order);
      if !found {
        return 0;
      }
      ghost var h := maxOrder - minOrder;
      Pow2Add(h, minOrder);
      IndexOf(blk, minOrder, h);
      AllocatedAt(old(tree), tree, h, minOrder, blk, top - minOrder, order - minOrder);
      AllocServes(old(tree), tree, h, minOrder, blk, top - minOrder, size);
      OfferedIs(old(blockOrder), order, top, blk, minOrder);
      assert order == minOrder + Wanted(size, minOrder);
      return base + blk * Pow2(minOrder);
    }

    /** mm_init: the orders are adjusted, the pool is faked to be allocated as a whole and then freed. */
    method MmInit(base: nat, poolSize: nat, granularity: nat) returns (ret: int)
      requires base > 0 && poolSize >= 2 && granularity >= 1 && blkFree != linkSet
      requires var o := InitOrders(poolSize, granularity);
               o.Orders? ==> var n := Pow2(o.max - o.min);
                             n <= blkFree.Length && n <= allocOrder.Length && n <= linkSet.Length
      modifies this, allocOrder, blkFree, linkSet
      ensures var o := InitOrders(poolSize, granularity);
              if o.Orders?
              then ret == 0 && Valid() && tree == Free && this.base == base && maxOrder == o.max && minOrder == o.min
              else ret == -12
      ensures ret == 0 ==> size == poolSize && Pow2(maxOrder) <= poolSize < Pow2(maxOrder + 1)
      ensures ret == -12 <==> poolSize < 8 || (poolSize < 16 && granularity > 8)
    {
      InitOrdersExact(poolSize, granularity);
      hide Length, Pow2;
      this.base := base;
      size := poolSize;
      LengthAtLeast(poolSize);
      maxOrder := Length(poolSize) - 1;
      minOrder := Length(granularity - 1);
      if Pow2(minOrder) < LINK_SIZE {
        minOrder := Length(LINK_SIZE - 1);
      }
      if minOrder > maxOrder {
        minOrder := maxOrder - 1;
        if Pow2(minOrder) < LINK_SIZE {
          return -12;
        }
      }
      assert InitOrders(poolSize, granularity) == Orders(maxOrder, minOrder);
      hide InitOrders;
      FreeWholePool();
      return 0;
    }

    /** The end of mm_init. */
    method FreeWholePool()
      requires base > 0 && 1 <= minOrder <= maxOrder && blkFree != linkSet
      requires Pow2(maxOrder - minOrder) <= blkFree.Length && Pow2(maxOrder - minOrder) <= allocOrder.Length
      requires Pow2(maxOrder - minOrder) <= linkSet.Length && Pow2(maxOrder) <= size
      modifies this, allocOrder, blkFree, linkSet
      ensures Valid() && tree == Free && unchanged(this`base, this`maxOrder, this`minOrder, this`size)
    {
      hide Length, Pow2;
      blockOrder := seq(maxOrder + 1, _ => []);
      nBlks := Pow2(maxOrder - minOrder);
      forall i | 0 <= i < nBlks { blkFree[i] := false; }
      forall i | 0 <= i < nBlks { allocOrder[i] := 0; }
      allocOrder[0] := maxOrder;
      allocBlks := nBlks;
      tree := Live;
      WholePool(T(), maxOrder - minOrder, minOrder);
      FreeIdx(0);
    }
  }

  const LINK_SIZE: nat := 8  // sizeof(struct mm_blk_lnk), two 32-bit pointers

  /** The orders mm_init settles on. */
  datatype PoolOrders = NoMemory | Orders(max: nat, min: nat)

  lemma LengthAtLeast(n: nat)
    requires n >= 2
    ensures Length(n) >= 2 && Length(LINK_SIZE - 1) == 3
  {
    assert Length(n / 2) >= 1;
    assert Length(1) == 1 && Length(3) == 2;
  }

  function InitOrders(poolSize: nat, granularity: nat): (o: PoolOrders)
    requires poolSize >= 2 && granularity >= 1
    ensures o.Orders? ==> 1 <= o.min <= o.max
  {
    LengthAtLeast(poolSize);
    var max := Length(poolSize) - 1;
    var wanted := Length(granularity - 1);
    var min := if Pow2(wanted) < LINK_SIZE then 3 else wanted;
    if min <= max then Orders(max, min)
    else if Pow2(max - 1) < LINK_SIZE then NoMemory
    else Orders(max, max - 1)
  }

  /** Is a block of this order as large as the granularity asked for, and large enough for its links? */
  predicate Enough(order: nat, granularity: nat) { granularity <= Pow2(order) && LINK_SIZE <= Pow2(order) }

  /**
   The pool is the largest power of two that the memory holds. Its smallest blocks have the least order that is enough,
   or the one below the pool's if that is too large. Without memory for that, mm_init gives up.
   */
  lemma InitOrdersExact(poolSize: nat, granularity: nat)
    requires poolSize >= 2 && granularity >= 1
    ensures var o := InitOrders(poolSize, granularity);
            && (o.NoMemory? <==> poolSize < 8 || (poolSize < 16 && granularity > 8))
            && (o.Orders? ==> Pow2(o.max) <= poolSize < Pow2(o.max + 1))
            && (o.Orders? && Enough(o.max, granularity) ==> forall k: nat :: Enough(k, granularity) <==> o.min <= k)
            && (o.Orders? && !Enough(o.max, granularity) ==> o.min == o.max - 1)
  {
    LengthAtLeast(poolSize);
    var max, wanted := Length(poolSize) - 1, Length(granularity - 1);
    var min := if Pow2(wanted) < LINK_SIZE then 3 else wanted;
    hide Length, Pow2;
    PoolOrder(poolSize, max);
    LeastOrder(granularity, wanted, min);
    SmallPools(poolSize, granularity, max);
    hide Enough;
    assert InitOrders(poolSize, granularity) ==
           if min <= max then Orders(max, min) else if Pow2(max - 1) < LINK_SIZE then NoMemory
             else Orders(max, max - 1);
  }

  lemma LeastOrder(g: nat, wanted: nat, min: nat)
    requires g >= 1 && wanted == Length(g - 1) && min == if Pow2(wanted) < LINK_SIZE then 3 else wanted
    ensures forall k: nat :: Enough(k, g) <==> min <= k
  {
    assert Length(LINK_SIZE - 1) == 3 by { LengthAtLeast(2); }
    hide Length, Pow2;
    OrderFits(LINK_SIZE, wanted);
    forall k: nat ensures Enough(k, g) <==> min <= k {
      OrderFits(g, k);
      OrderFits(LINK_SIZE, k);
    }
  }

  lemma PoolOrder(n: nat, max: nat)
    requires n >= 2 && max + 1 == Length(n)
    ensures Pow2(max) <= n < Pow2(max + 1)
  {
    LengthFits(n, max);
    LengthFits(n, max + 1);
    OnesIsPow2(max);
    OnesIsPow2(max + 1);
  }

  lemma SmallPools(n: nat, g: nat, max: nat)
    requires n >= 2 && g >= 1 && Pow2(max) <= n < Pow2(max + 1)
    ensures !Enough(max, g) && (max == 0 || Pow2(max - 1) < LINK_SIZE) <==> n < 8 || (n < 16 && g > 8)
  {
    if max >= 4 {
      Pow2Add(max - 4, 4);
      assert Pow2(4) == 16;
      Pow2Add(max - 4, 3);
      assert Pow2(3) == 8;
      Scaled(Pow2(max - 4), 16);
      Scaled(Pow2(max - 4), 8);
    }
  }

  lemma Scaled(a: nat, b: nat)
    requires a >= 1
    ensures a * b >= b
  {}

  /** The order of the block for a request: the least one that holds it, but at least the smallest of the pool. */
  lemma WantedLeast(size: nat, min: nat)
    requires size > 0
    ensures var k := min + Wanted(size, min); size <= Pow2(k) && (k == min || Pow2(k - 1) < size)
  {
    var k := min + Wanted(size, min);
    OrderFits(size, k);
    if k > min {
      OrderFits(size, k - 1);
    }
  }

  /** A block of order `k`, the least that holds the request, is live at byte offset `off`, aligned to its size. */
  ghost predicate Serves(u: Tree, h: nat, min: nat, off: nat, size: nat, k: nat)
    requires Fits(u, h)
  {
    && min <= k && size <= Pow2(k) && (k == min || Pow2(k - 1) < size)
    && off % Pow2(k) == 0 && off + Pow2(k) <= Pow2(min + h) && LiveAt(u, h, off / Pow2(min), k - min)
  }

  ghost predicate Served(u: Tree, h: nat, min: nat, off: nat, size: nat)
    requires Fits(u, h)
  {
    exists k: nat :: Serves(u, h, min, off, size, k)
  }

  lemma {:induction false} AllocServes(t: Tree, u: Tree, h: nat, min: nat, blk: nat, i: nat, size: nat)
    requires size > 0 && Fits(t, h) && Find(t, h, blk) == Block(i, true) && Wanted(size, min) <= i && blk < Pow2(h)
    requires Has(t, h, blk, i) && u == Put(t, h, blk, i, Carve(i, Wanted(size, min)))
    ensures var k, off := min + Wanted(size, min), blk * Pow2(min);
            Serves(u, h, min, off, size, k) && Served(u, h, min, off, size) && off + size <= Pow2(min + h)
  {
    hide Find, Put, Carve, Has, Pow2, Wanted;
    var c := Wanted(size, min);
    AllocLive(t, h, blk, i, c, blk, c);
    BlockPlace(u, h, min, blk, c);
    IndexOf(blk, min, h);
    WantedLeast(size, min);
  }

  /** Where a block lies in bytes. */
  lemma {:induction false} BlockPlace(u: Tree, h: nat, min: nat, blk: nat, c: nat)
    requires Fits(u, h) && LiveAt(u, h, blk, c) && blk < Pow2(h)
    ensures blk * Pow2(min) % Pow2(min + c) == 0 && blk * Pow2(min) + Pow2(min + c) <= Pow2(min + h)
  {
    hide Pow2, Find;
    Aligned(u, h, blk);
    BlockEnd(u, h, blk);
    Pow2Add(c, min);
    Pow2Add(h, min);
    PlaceArith(blk, Pow2(c), Pow2(min), Pow2(h));
  }

  lemma BlockEnd(u: Tree, h: nat, blk: nat)
    requires Fits(u, h) && blk < Pow2(h) && Find(u, h, blk).Block?
    ensures blk + Pow2(Find(u, h, blk).height) <= Pow2(h)
  {
    BlocksTile(u, h);
  }

  lemma PlaceArith(blk: nat, p: nat, m: nat, n: nat)
    requires p > 0 && m > 0 && blk % p == 0 && blk + p <= n
    ensures p * m > 0 && blk * m % (p * m) == 0 && blk * m + p * m <= n * m
  {
    var q, d := blk / p, n - (blk + p);
    assert blk == q * p;
    Grouped(q, p, m);
    RemainderIs(blk * m, p * m, q, 0);
    assert n * m == blk * m + p * m + d * m;
  }

  lemma Grouped(q: nat, p: nat, m: nat)
    requires p > 0 && m > 0
    ensures q * p * m == q * (p * m) && p * m > 0
  {}

  /** The block is the first one of the first list, from order `from` on, that has any. */
  ghost predicate Offered(lists: seq<seq<nat>>, from: nat, top: nat, blk: nat) {
    && from <= top < |lists| && lists[top] != [] && lists[top][0] == blk
    && forall k | from <= k < top :: lists[k] == []
  }

  ghost predicate OfferedAt(lists: seq<seq<nat>>, from: nat, min: nat, off: nat) {
    exists top: nat, blk: nat :: Offered(lists, from, top, blk) && off == blk * Pow2(min)
  }

  lemma OfferedIs(lists: seq<seq<nat>>, from: nat, top: nat, blk: nat, min: nat)
    ensures Offered(lists, from, top, blk) ==> OfferedAt(lists, from, min, blk * Pow2(min))
  {
    hide Pow2;
  }

  /** The height of the block a request of `size` bytes gets. */
  function Wanted(size: nat, min: nat): nat
    requires size > 0
  {
    if Length(size - 1) < min then 0 else Length(size - 1) - min
  }

  /** The least power of two that holds `size` bytes. */
  lemma OrderFits(size: nat, n: nat)
    requires size > 0
    ensures Length(size - 1) <= n <==> size <= Pow2(n)
  {
    LengthFits(size - 1, n);
    OnesIsPow2(n);
  }

  /** A byte offset that is the start of a block. */
  predicate BlockStart(t: Tree, h: nat, min: nat, off: nat)
    requires Fits(t, h)
  {
    off % Pow2(min) == 0 && off / Pow2(min) < Pow2(h) && Find(t, h, off / Pow2(min)).Block?
  }

  /** `u` is `t` with a block of height `c` carved out of the free block at byte offset `off`. */
  ghost predicate IsAlloc(t: Tree, u: Tree, h: nat, min: nat, off: nat, c: nat)
    requires Fits(t, h)
  {
    var x := off / Pow2(min);
    && BlockStart(t, h, min, off) && Find(t, h, x).free && c <= Find(t, h, x).height
    && Has(t, h, x, Find(t, h, x).height)
    && u == Put(t, h, x, Find(t, h, x).height, Carve(Find(t, h, x).height, c))
    && (x == 0 <==> InUse(t, h) == 0)
    && (x != 0 ==> BestFit(t, h, c, Find(t, h, x).height))
  }

  /** The tables before the first mm_free: one live block. */
  lemma WholePool(m: Tables, h: nat, min: nat)
    requires Pow2(h) <= |m.free| && Pow2(h) <= |m.orders| && Pow2(h) <= |m.linked| && min + h < |m.lists|
    requires forall i | 0 <= i < Pow2(h) :: !m.free[i]
    requires m.orders[0] == min + h && forall k | 0 <= k <= min + h :: m.lists[k] == []
    ensures Describes(m, Live, h, min, -1)
  {
    forall i: nat | i < Pow2(h) ensures EntryOk(m, Live, h, min, -1, i) {}
    forall k: nat | k <= min + h ensures ListOk(m, Live, h, min, k) {}
  }

  lemma {:induction false} IndexOf(x: nat, min: nat, h: nat)
    requires x < Pow2(h)
    ensures x * Pow2(min) / Pow2(min) == x && x * Pow2(min) % Pow2(min) == 0 && x * Pow2(min) < Pow2(h) * Pow2(min)
  {
    hide Pow2;
    IndexArith(x, Pow2(min), Pow2(h));
  }

  lemma IndexArith(x: nat, p: nat, n: nat)
    requires p > 0 && x < n
    ensures x * p / p == x && x * p % p == 0 && x * p < n * p
  {
    RemainderIs(x * p, p, x, 0);
    var d := n - x;
    assert d * p >= p;
    assert n * p == x * p + d * p;
  }

  lemma {:induction false} IndexBound(off: nat, max: nat, min: nat)
    requires off < Pow2(max) && min <= max
    ensures off / Pow2(min) < Pow2(max - min)
  {
    Pow2Add(max - min, min);
    hide Pow2;
    QuotientBound(off, Pow2(min), Pow2(max - min));
  }

  lemma QuotientBound(off: nat, p: nat, n: nat)
    requires p > 0 && off < n * p
    ensures off / p < n
  {
    var q := off / p;
    assert off == q * p + off % p;
    LessByFactor(q, n, p);
  }

  lemma LessByFactor(q: nat, n: nat, p: nat)
    requires q * p < n * p
    ensures q < n
  {
    assert q >= n ==> (q - n) * p >= 0;
  }

  /** A free block of at least height `c`. */
  predicate LargeEnough(t: Tree, h: nat, x: nat, c: nat)
    requires Fits(t, h)
  {
    var s := Find(t, h, x);
    s.Block? && s.free && s.height >= c
  }

  /** No free block away from the base is large enough. */
  ghost predicate NoneLinked(t: Tree, h: nat, c: nat)
    requires Fits(t, h)
  {
    forall x: nat | 0 < x < Pow2(h) :: !LargeEnough(t, h, x, c)
  }

  /** Every free block away from the base that is large enough has at least height `i`. */
  ghost predicate BestFit(t: Tree, h: nat, c: nat, i: int)
    requires Fits(t, h)
  {
    forall x: nat | 0 < x < Pow2(h) && LargeEnough(t, h, x, c) :: Find(t, h, x).height >= i
  }

  lemma EmptyLists(m: Tables, t: Tree, h: nat, min: nat, order: nat, top: nat)
    requires Describes(m, t, h, min, -1) && min <= order && top <= min + h + 1
    requires forall k: nat | order <= k < top :: m.lists[k] == []
    ensures BestFit(t, h, order - min, top - min)
    ensures top == min + h + 1 ==> NoneLinked(t, h, order - min)
    ensures order <= top <= min + h && m.lists[top] != [] ==> !NoneLinked(t, h, order - min)
  {
    if order <= top <= min + h && m.lists[top] != [] {
      assert ListOk(m, t, h, min, top);
      var x := m.lists[top][0];
      assert x in m.lists[top];
      assert LargeEnough(t, h, x, order - min);
    }
    forall x: nat | 0 < x < Pow2(h) && LargeEnough(t, h, x, order - min)
      ensures top - min <= Find(t, h, x).height <= h
    {
      BlockIsLeaf(t, h, x);
      var k := min + Find(t, h, x).height;
      assert ListOk(m, t, h, min, k);
      assert x in m.lists[k];
    }
  }

  lemma CarvedFind(t: Tree, h: nat, x: nat, i: nat, c: nat)
    requires Fits(t, h) && Has(t, h, x, i) && c <= i
    ensures x < Pow2(h) && LiveAt(Put(t, h, x, i, Carve(i, c)), h, x, c)
  {
    HasBound(t, h, x, i);
    CarveShape(i, c);
    FindPut(t, h, x, i, Carve(i, c), x);
  }

  lemma CarvedPool(t: Tree, h: nat, x: nat, i: nat, c: nat)
    requires Fits(t, h) && Coalesced(t) && Find(t, h, x) == Block(i, true) && c <= i
    ensures Has(t, h, x, i)
    ensures var u := Put(t, h, x, i, Carve(i, c)); Coalesced(u) && InUse(u, h) == InUse(t, h) + Pow2(c)
  {
    BlockIsLeaf(t, h, x);
    CarveShape(i, c);
    PutCoalesced(t, h, x, i, Carve(i, c));
    PutInUse(t, h, x, i, Carve(i, c));
  }

  lemma FillHole(m: Tables, t: Tree, h: nat, min: nat, x: nat)
    requires Describes(m, t, h, min, x) && x < Pow2(h) && Find(t, h, x).Block?
    requires m.orders[x] == min + Find(t, h, x).height
    ensures Describes(m, t, h, min, -1)
  {
    forall i: nat | i < Pow2(h) ensures EntryOk(m, t, h, min, -1, i) { assert EntryOk(m, t, h, min, x, i); }
  }

  /** Freeing the block at `x` merges it into its buddy below. */
  ghost predicate MergesDown(t: Tree, h: nat, x: nat) {
    Fits(t, h) && Find(t, h, x).Block? && !Find(t, h, x).free && var c := Find(t, h, x).height;
      c < h && Bit(x, c) && Flip(x, c) >= 0 && Find(t, h, Flip(x, c)) == Block(c, true)
  }

  /** What the tables show of a position that may be the free buddy of a block of height `c`. */
  lemma BuddyEntry(m: Tables, t: Tree, h: nat, min: nat, n: nat, c: nat)
    requires Describes(m, t, h, min, -1) && n < Pow2(h) && c < h
    ensures m.free[n] && m.orders[n] == min + c && m.linked[n] <==> Find(t, h, n) == Block(c, true)
  {
    assert EntryOk(m, t, h, min, -1, n);
  }

  /** An allocation by index, seen by its address. */
  lemma AllocatedAt(t: Tree, u: Tree, h: nat, min: nat, blk: nat, i: nat, c: nat)
    requires Fits(t, h) && Find(t, h, blk) == Block(i, true) && c <= i && blk < Pow2(h) && Has(t, h, blk, i)
    requires u == Put(t, h, blk, i, Carve(i, c)) && (blk == 0 <==> InUse(t, h) == 0)
             && (blk != 0 ==> BestFit(t, h, c, i))
    ensures IsAlloc(t, u, h, min, blk * Pow2(min), c)
  {
    hide Find, Put, Carve, Has, BestFit, InUse, Pow2;
    IndexOf(blk, min, h);
  }

  lemma OrderEntry(m: Tables, t: Tree, h: nat, min: nat, n: nat)
    requires Describes(m, t, h, min, -1) && n < Pow2(h) && Find(t, h, n).Block?
    ensures m.orders[n] == min + Find(t, h, n).height
  {
    assert EntryOk(m, t, h, min, -1, n);
  }

  lemma DownFacts(t: Tree, h: nat, x: nat)
    requires MergesDown(t, h, x)
    ensures var c := Find(t, h, x).height;
            c < h && Bit(x, c) && Flip(x, c) >= 0 && Find(t, h, Flip(x, c)) == Block(c, true)
  {}

  /** What lies inside a block, or is the upper of two, lies inside the merged one and is not its start. */
  lemma {:induction false} StaysInside(x: nat, c: nat, start: nat)
    requires (x == start && Bit(x, c) && Flip(x, c) >= 0) || x < start < x + Pow2(c)
    ensures Flip(x, c) != start
    ensures var at := if Bit(x, c) then Flip(x, c) else x; at < start < at + Pow2(c + 1)
  {}

  /** One merge on the way up: the joined block is live, and freeing it is freeing the first one. */
  lemma {:induction false} MergedOn(t: Tree, h: nat, x: nat, c: nat, p: nat)
    requires Fits(t, h) && c < h && LiveAt(t, h, x, c) && Flip(x, c) >= 0 && Find(t, h, Flip(x, c)) == Block(c, true)
    requires p == if Bit(x, c) then Flip(x, c) else x
    ensures Has(t, h, p, c + 1) && p < Pow2(h)
    ensures var u := Put(t, h, p, c + 1, Live); LiveAt(u, h, p, c + 1) && FreeAt(t, h, x) == FreeAt(u, h, p)
  {
    hide Sub, Put, Has, FreeAt;
    BlockIsLeaf(t, h, x);
    Buddies(t, h, x, c);
    BlockIsLeaf(t, h, Flip(x, c));
    MergeStep(t, h, x, c);
    HasBound(t, h, p, c + 1);
    FindPut(t, h, p, c + 1, Live, p);
  }

  /** The end of the way: freeing changes the block itself only. */
  lemma {:induction false} MergedAll(t: Tree, h: nat, x: nat, c: nat)
    requires Fits(t, h) && c <= h && LiveAt(t, h, x, c)
    requires c < h ==> Flip(x, c) >= 0 && Find(t, h, Flip(x, c)) != Block(c, true)
    ensures Has(t, h, x, c) && Sub(t, h, x, c) == Live && FreeAt(t, h, x) == Put(t, h, x, c, Free)
  {
    hide Sub, Put, Has, FreeAt;
    BlockIsLeaf(t, h, x);
    if c < h {
      Buddies(t, h, x, c);
      BuddyNotFree(t, h, Flip(x, c), c);
    }
    MergeStop(t, h, x, c);
  }

  lemma BuddyNotFree(t: Tree, h: nat, y: nat, k: nat)
    requires Fits(t, h) && Has(t, h, y, k) && Find(t, h, y) != Block(k, true)
    ensures Sub(t, h, y, k) != Free
  {
    if Sub(t, h, y, k) == Free { LeafIsBlock(t, h, y, k); }
  }

  /** Replacing one leaf by another changes only the spot where it starts. */
  lemma LeafFinds(t: Tree, h: nat, x: nat, c: nat, s: Tree)
    requires Fits(t, h) && Has(t, h, x, c) && !Sub(t, h, x, c).Node? && !s.Node?
    ensures forall i: nat | i < Pow2(h) ::
              Find(Put(t, h, x, c, s), h, i) == if i == x then Block(c, s.Free?) else Find(t, h, i)
  {
    HasBound(t, h, x, c);
    forall i: nat | i < Pow2(h)
      ensures Find(Put(t, h, x, c, s), h, i) == if i == x then Block(c, s.Free?) else Find(t, h, i)
    {
      FindPut(t, h, x, c, s, i);
      if x < i < x + Pow2(c) { InsideBlock(t, h, x, c, i); }
    }
  }

  lemma HalvesFit(k: nat)
    requires k > 0
    ensures Fits(Node(Live, Free), k)
  {
    assert Fits(Live, k - 1) && Fits(Free, k - 1);
  }

  lemma SplitFinds(t: Tree, h: nat, x: nat, c: nat, u: Tree)
    requires Fits(t, h) && Fits(Node(Live, Free), c + 1) && Has(t, h, x, c + 1) && Sub(t, h, x, c + 1) == Live
             && u == Put(t, h, x, c + 1, Node(Live, Free))
    ensures x + Pow2(c) < Pow2(h) && Find(t, h, x + Pow2(c)) == Inside && c + 1 <= h
    ensures forall i: nat | i < Pow2(h) ::
              Find(u, h, i) ==
                if i == x then Block(c, false) else if i == x + Pow2(c) then Block(c, true) else Find(t, h, i)
  {
    HasBound(t, h, x, c + 1);
    forall i: nat | i < Pow2(h)
      ensures Find(u, h, i) ==
                if i == x then Block(c, false) else if i == x + Pow2(c) then Block(c, true) else Find(t, h, i)
      ensures x < i < x + Pow2(c + 1) ==> Find(t, h, i) == Inside
    {
      FindPut(t, h, x, c + 1, Node(Live, Free), i);
      if x < i < x + Pow2(c + 1) { InsideBlock(t, h, x, c + 1, i); }
    }
  }

  // ---------------------------------------------------------------- what follows for the pool

  /** With nothing allocated the pool is one free block at the base and every list is empty. */
  lemma UnusedPool(m: Tables, t: Tree, h: nat, min: nat)
    requires Describes(m, t, h, min, -1) && Coalesced(t) && InUse(t, h) == 0
    ensures t == Free && forall k: nat | k <= min + h :: m.lists[k] == []
  {
    UnusedIsOneBlock(t, h);
    forall k: nat | k <= min + h ensures m.lists[k] == [] {
      assert ListOk(m, t, h, min, k);
      HeadIsMember(m.lists[k]);
    }
  }

  lemma HeadIsMember(l: seq<nat>)
    ensures l == [] || l[0] in l
  {}

  /** A request can fail although a free block is large enough: the one at the base is not looked at. */
  lemma BaseBlockIsSkipped(t: Tree, h: nat, c: nat)
    requires t == Node(Free, Live) && h == c + 1
    ensures Fits(t, h) && Coalesced(t) && InUse(t, h) > 0
    ensures LargeEnough(t, h, 0, c) && NoneLinked(t, h, c)
  {
    assert Fits(t.l, c) && Fits(t.r, c);
    assert Find(t.l, c, 0) == Block(c, true);
    assert InUse(t.r, c) == Pow2(c);
    forall x: nat | 0 < x < Pow2(h) ensures !LargeEnough(t, h, x, c) {
      if x < Pow2(c) {
        assert Find(t.l, c, x) == Inside;
      } else {
        assert Find(t.r, c, x - Pow2(c)) == if x == Pow2(c) then Block(c, false) else Inside;
      }
    }
  }

  // ---------------------------------------------------------------- runs on a pool of two blocks

  lemma TwoBlockSizes()
    ensures Pow2(0) == 1 && Pow2(1) == 2 && Pow2(3) == 8 && Pow2(4) == 16 && Length(7) == 3 && Wanted(8, 3) == 0
    ensures InitOrders(16, 8) == Orders(4, 3)
  {
    assert Pow2(2) == 4;
    assert Length(0) == 0 && Length(1) == 1 && Length(2) == 2 && Length(3) == 2 && Length(4) == 3 && Length(8) == 4
           && Length(16) == 5;
  }

  function Joined(l: Tree, r: Tree): Tree { if l.Free? && r.Free? then Free else Node(l, r) }

  /** The blocks of a pool of two. */
  lemma {:induction false} TwoFound(l: Tree, r: Tree, h: nat, c: nat)
    requires !l.Node? && !r.Node? && c == 0 && h == c + 1
    ensures Fits(Node(l, r), h) && Find(Node(l, r), h, 0) == Block(c, l.Free?)
            && Find(Node(l, r), h, 1) == Block(c, r.Free?)
    ensures InUse(Node(l, r), h) == (if l.Live? then 1 else 0) + (if r.Live? then 1 else 0)
  {
    hide Find, InUse;
    TwoFoundAt(l, r, h, c, 0);
    TwoFoundAt(l, r, h, c, 1);
    TwoInUse(l, r, h, c);
  }

  lemma {:induction false} TwoFoundAt(l: Tree, r: Tree, h: nat, c: nat, x: nat)
    requires !l.Node? && !r.Node? && c == 0 && h == c + 1 && x <= 1
    ensures Fits(Node(l, r), h) && Find(Node(l, r), h, x) == Block(c, if x == 0 then l.Free? else r.Free?)
  {
    var t, p := Node(l, r), Pow2(c);
    assert p == 1 && Fits(l, c) && Fits(r, c);
    assert Find(t, h, x) == if x < p then Find(l, c, x) else Find(r, c, x - p);
  }

  lemma {:induction false} TwoInUse(l: Tree, r: Tree, h: nat, c: nat)
    requires !l.Node? && !r.Node? && c == 0 && h == c + 1
    ensures Fits(Node(l, r), h) && InUse(Node(l, r), h) == (if l.Live? then 1 else 0) + (if r.Live? then 1 else 0)
  {
    assert Pow2(c) == 1;
    hide Pow2;
    assert Fits(l, c) && Fits(r, c) && Fits(Node(l, r), h);
    assert InUse(l, c) == (if l.Live? then Pow2(c) else 0);
    assert InUse(r, c) == (if r.Live? then Pow2(c) else 0);
  }

  lemma {:induction false} TwoLinked(l: Tree, r: Tree, h: nat, c: nat)
    requires !l.Node? && !r.Node? && c == 0 && h == c + 1
    ensures Fits(Node(l, r), h) && (NoneLinked(Node(l, r), h, c) <==> !r.Free?)
  {
    TwoBlockSizes();
    hide Find, Pow2, Fits, InUse;
    TwoFound(l, r, h, c);
    var t, one := Node(l, r), 1;
    assert LargeEnough(t, h, one, c) <==> r.Free?;
    assert Pow2(h) == 2;
  }

  lemma {:induction false} TwoFreed(l: Tree, r: Tree, h: nat, c: nat)
    requires !l.Node? && !r.Node? && c == 0 && h == c + 1
    ensures Fits(Node(l, r), h) && FreeAt(Node(l, r), h, 0) == Joined(Free, r)
            && FreeAt(Node(l, r), h, 1) == Joined(l, Free)
  {
    assert Fits(l, c) && Fits(r, c) && Pow2(c) == 1;
    assert FreeAt(l, c, 0) == Free && FreeAt(r, c, 0) == Free;
  }

  lemma {:induction false} TwoPut(l: Tree, r: Tree, h: nat, c: nat)
    requires !l.Node? && !r.Node? && c == 0 && h == c + 1
    ensures Fits(Node(l, r), h) && Has(Node(l, r), h, 1, c) && Put(Node(l, r), h, 1, c, Live) == Node(l, Live)
  {
    assert Fits(l, c) && Fits(r, c) && Pow2(c) == 1;
    assert Has(r, c, 0, c) && Put(r, c, 0, c, Live) == Live;
  }

  lemma {:induction false} FirstAlloc(u: Tree, h: nat, c: nat, min: nat, off: nat)
    requires c == 0 && h == c + 1 && min == 3 && IsAlloc(Free, u, h, min, off, c)
    ensures off == 0 && u == Node(Live, Free)
  {
    TwoBlockSizes();
    assert Carve(c, c) == Live && Carve(h, c) == Node(Carve(c, c), Free);
  }

  lemma {:induction false} SecondAlloc(u: Tree, h: nat, c: nat, min: nat, off: nat)
    requires c == 0 && h == c + 1 && min == 3 && IsAlloc(Node(Live, Free), u, h, min, off, c)
    ensures off == 8 && u == Node(Live, Live)
  {
    hide Find, Put, Has, InUse, BestFit;
    TwoBlockSizes();
    TwoFound(Live, Free, h, c);
    TwoPut(Live, Free, h, c);
    assert off / Pow2(min) == 1;
    assert Carve(c, c) == Live;
  }

  /** A pool of two blocks, both allocated. */
  method BothAllocated(ghost h: nat, ghost c: nat) returns (p: Pool, a: nat, b: nat)
    requires c == 0 && h == c + 1
    ensures p.Valid() && fresh(p) && fresh(p.allocOrder) && fresh(p.blkFree) && fresh(p.linkSet)
    ensures p.base == a == 0x1000 && b == 0x1008 && p.minOrder == 3 && p.maxOrder == 4 && p.tree == Node(Live, Live)
  {
    hide IsAlloc, NoneLinked, Describes, Coalesced, Wanted, InitOrders, Find, InUse, Pow2, Length, BlockStart;
    TwoBlockSizes();
    var orders, bitmap, links := new nat[2], new bool[2], new bool[2];
    p := new Pool(orders, bitmap, links);
    var ret := p.MmInit(0x1000, 16, 8);
    UnusedCount(h);
    a := p.MmAlloc(8);
    FirstAlloc(p.tree, h, c, 3, a - p.base);
    TwoFound(Live, Free, h, c);
    TwoLinked(Live, Free, h, c);
    b := p.MmAlloc(8);
    SecondAlloc(p.tree, h, c, 3, b - p.base);
  }

  lemma UnusedCount(h: nat)
    ensures Fits(Free, h) && InUse(Free, h) == 0
  {}

  /** With the base free and the other block in use, a request that the base could serve gets NULL. */
  method SkippedRun(ghost h: nat, ghost c: nat) returns (p: Pool, third: nat)
    requires c == 0 && h == c + 1
    ensures p.Valid() && third == 0 && p.H() == h && Find(p.tree, h, 0) == Block(c, true) && 8 <= Pow2(p.minOrder)
  {
    hide IsAlloc, NoneLinked, Describes, Coalesced, Wanted, Find, InUse, Pow2, Length, FreeAt;
    TwoBlockSizes();
    TwoFound(Live, Live, h, c);
    TwoFreed(Live, Live, h, c);
    TwoFound(Free, Live, h, c);
    TwoLinked(Free, Live, h, c);
    var a, b;
    p, a, b := BothAllocated(h, c);
    p.MmFree(a);
    third := p.MmAlloc(8);
  }

  /** After both were freed, the upper one last, its order is still in the table: a second free is not refused. */
  method StaleOrderRun(ghost h: nat, ghost c: nat) returns (p: Pool, b: nat)
    requires c == 0 && h == c + 1
    ensures p.Valid() && p.tree == Free && p.base <= b < p.base + Pow2(p.maxOrder)
    ensures !BlockStart(p.tree, p.H(), p.minOrder, b - p.base) && !p.RefusesAt(b)
  {
    hide IsAlloc, NoneLinked, ListOk, Coalesced, Wanted, Find, InUse, Pow2, Length, FreeAt;
    TwoBlockSizes();
    TwoFound(Live, Live, h, c);
    TwoFreed(Live, Live, h, c);
    TwoFound(Free, Live, h, c);
    TwoFreed(Free, Live, h, c);
    var a;
    p, a, b := BothAllocated(h, c);
    p.MmFree(a);
    assert EntryOk(p.T(), p.tree, h, 3, -1, 1);
    UpperOfTwo(h, c);
    p.MmFree(b);
    InsideOne(h);
    assert EntryOk(p.T(), p.tree, h, 3, -1, 1);
  }

  lemma {:induction false} UpperOfTwo(h: nat, c: nat)
    requires c == 0 && h == c + 1
    ensures MergesDown(Node(Free, Live), h, 1)
  {
    hide Find, Fits, InUse;
    TwoFound(Free, Live, h, c);
    var one: nat := 1;
    assert Bit(one, c) && Pow2(c) == 1;
    assert Flip(one, c) == 0;
  }

  lemma InsideOne(h: nat)
    ensures Fits(Free, h) && Find(Free, h, 1) == Inside
  {}
}
