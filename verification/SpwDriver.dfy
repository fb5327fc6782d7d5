/**
 The receive and transmit sides of the SpaceWire driver (kernel/grspw2.c) as objects whose methods
 are the driver calls, the DMA core's steps and the auto-drop interrupt. Each call is atomic.
 */
module SpwDriver {
  import opened SpwRing
  import Sessions = SpwSession

  type Packet = seq<nat>

  const SIZE_LIMIT: int := 0x1_0000_0000

  function TotalSize(ps: seq<Packet>): nat {
    if ps == [] then 0 else TotalSize(ps[..|ps| - 1]) + |ps[|ps| - 1]|
  }

  /**
   What grspw2_get_pkt copies: the packet behind the stripped header, or, for a packet shorter than that,
   as many bytes as the size has after it wrapped.
   */
  datatype Copy = Nothing | Bytes(pkt: Packet) | Beyond(length: int)

  function CopyOf(p: Packet, strip: nat): Copy {
    if strip <= |p| then Bytes(p[strip..]) else Beyond((|p| - strip) % SIZE_LIMIT)
  }

  lemma CopyIs(p: Packet, strip: nat)
    ensures strip <= |p| ==> CopyOf(p, strip) == Bytes(p[strip..])
    ensures strip <= |p| < SIZE_LIMIT ==> (|p| - strip) % SIZE_LIMIT == |p| - strip
    ensures |p| < strip <= SIZE_LIMIT ==> (|p| - strip) % SIZE_LIMIT == SIZE_LIMIT + |p| - strip
    ensures |p| < strip ==> CopyOf(p, strip) == Beyond((|p| - strip) % SIZE_LIMIT)
  {}

  // ---------------------------------------------------------------- receive

  class RxRing {
    const desc: array<Desc<Packet>>
    const strip: nat
    var used: seq<int>
    var free: seq<int>
    var cursor: int
    var rxBytes: nat
    var autoDrop: bool
    var nDrop: nat
    var idxDrop: int
    ghost var head: nat
    ghost var done: nat
    ghost var received: seq<Packet>
    ghost var consumed: seq<Packet>

    ghost predicate Ring()
      reads this, desc
    {
      && InOrder(desc[..], used, free, head, done, cursor)
      && received == consumed + Packets(desc[..], used[..done])
      && rxBytes == TotalSize(consumed)
    }

    /** No interrupt flag is set, except possibly the one at `x`. */
    ghost predicate Clean(x: int)
      reads desc
    {
      forall i | 0 <= i < desc.Length && i != x :: !desc[i].ie
    }

    /** The session as it is seen from the head. */
    ghost function Offsets(): Sessions.Drops
      requires head < desc.Length
      reads this, desc
    {
      Sessions.Drops(desc.Length, nDrop, done, FlagSet(desc[..], head))
    }

    /** In order; the flag of a session stands `nDrop` places behind the head, whatever other flags there are. */
    ghost predicate Usable()
      reads this, desc
    {
      && Ring() && head < desc.Length
      && (autoDrop ==> nDrop < desc.Length && idxDrop == At(desc.Length, head, nDrop) && desc[idxDrop].ie)
    }

    /** In order, and no interrupt to come can change that. */
    ghost predicate Valid()
      reads this, desc
    {
      Usable() && (autoDrop ==> Sessions.Safe(Offsets()))
    }

    /** A session with no other flags, its own one ahead of the core, on a ring with all descriptors armed. */
    ghost predicate Flowing()
      reads this, desc
    {
      Usable() && autoDrop && |used| == desc.Length && Sessions.Flowing(Offsets())
    }

    /** Some head and some number of completed descriptors put the ring in order. */
    ghost predicate Orderly()
      reads this, desc
    {
      exists h: nat, k: nat :: InOrder(desc[..], used, free, h, k, cursor)
    }

    /** grspw2_rx_desc_table_init: every descriptor is free and disabled. */
    constructor (n: nat, strip: nat)
      requires n > 0
      ensures Valid() && fresh(desc) && desc.Length == n && this.strip == strip
      ensures used == [] && !autoDrop && received == [] && consumed == [] && Clean(-1) && head == 0 && done == 0
    {
      var table := new Desc<Packet>[n](_ => Desc(false, false, false, []));
      desc, this.strip := table, strip;
      used, free, cursor := [], seq(n, i => i), 0;
      rxBytes, autoDrop, nDrop, idxDrop := 0, false, 0, 0;
      head, done, received, consumed := 0, 0, [], [];
      new;
      assert free == Rotation(n, 0);
      assert used + free == free;
      assert received == consumed + Packets(desc[..], used[..done]);
    }

    ghost predicate InTable()
      reads this
    {
      (forall i | 0 <= i < |used| :: 0 <= used[i] < desc.Length)
      && (forall i | 0 <= i < |free| :: 0 <= free[i] < desc.Length)
    }

    /** Enable the first free descriptor and move it behind the used ones. */
    method ArmFree()
      requires InTable() && free != []
      modifies this`used, this`free, desc
      ensures InTable() && used == old(used) + [old(free)[0]] && free == old(free)[1..]
      ensures desc[..] == Armed(old(desc[..]), old(free)[0], [])
    {
      var x := free[0];
      ghost var d := desc[..];
      if x == desc.Length - 1 {
        desc[x] := desc[x].(wrap := true);
      }
      desc[x] := desc[x].(pkt := []);
      desc[x] := desc[x].(en := true);
      used, free := used + [x], free[1..];
      assert desc[..] == Armed(d, x, []);
    }

    /** grspw2_rx_desc_add: -1 exactly when no descriptor is free. */
    method DescAdd() returns (ret: int)
      requires Ring()
      modifies this`used, this`free, desc
      ensures Ring() && unchanged(this`cursor, this`head, this`done, this`received, this`consumed, this`rxBytes)
      ensures forall i | 0 <= i < desc.Length :: desc[i].ie == old(desc[i].ie)
      ensures old(free) == [] ==> ret == -1 && used == old(used) && free == [] && desc[..] == old(desc[..])
      ensures old(free) != [] ==> ret == 0 && used == old(used) + [old(free)[0]] && free == old(free)[1..]
    {
      hide InOrder, Packets;
      ListsDistinct(desc[..], used, free, head, done, cursor);
      if free == [] {
        return -1;
      }
      ghost var d, x := desc[..], free[0];
      ArmStep(d, used, free, head, done, cursor, []);
      ArmFree();
      FlagsOf(d, desc[..], x);
      return 0;
    }

    /** grswp2_rx_desc_add_all: afterwards every descriptor is armed. */
    method DescAddAll()
      requires Ring()
      modifies this`used, this`free, desc
      ensures Ring() && free == [] && |used| == desc.Length
      ensures unchanged(this`cursor, this`head, this`done, this`received, this`consumed, this`rxBytes)
      ensures forall i | 0 <= i < desc.Length :: desc[i].ie == old(desc[i].ie)
    {
      ListsDistinct(desc[..], used, free, head, done, cursor);
      var i := 0;
      while i < desc.Length
        invariant i <= desc.Length && Ring() && |used| + |free| == desc.Length
        invariant free != [] ==> |free| <= desc.Length - i
        invariant unchanged(this`cursor, this`head, this`done, this`received, this`consumed, this`rxBytes)
        invariant forall j | 0 <= j < desc.Length :: desc[j].ie == old(desc[j].ie)
      {
        var ret := DescAdd();
        if ret != 0 {
          break;
        }
        i := i + 1;
      }
    }

    /**
     grspw2_rx_desc_readd of the head of the used list. If that is completed, its packet is consumed and the
     ring turns by one.
     */
    method Readd()
      requires InTable() && used != []
      modifies this`used, this`free, this`head, this`done, this`consumed, this`rxBytes, desc
      ensures InTable() && used + free == old((used + free)[1..]) + [old(used[0])] && |used| == |old(used)|
      ensures desc[used[|used| - 1]].en && forall i | 0 <= i < desc.Length && old(desc[i].en) :: desc[i].en
      ensures forall i | 0 <= i < desc.Length :: desc[i].ie == old(desc[i].ie)
      ensures old(Ring()) && old(done) > 0 ==> Ring()
      ensures old(Ring()) && old(done) > 0 ==> head == Next(desc.Length, old(head)) && done == old(done) - 1
      ensures old(Ring()) && old(done) > 0 ==> consumed == old(consumed) + [old(desc[head].pkt)]
    {
      hide InOrder, Packets, Armed;
      ghost var d := desc[..];
      ghost var good := Ring() && done > 0;
      ghost var y := (free + [used[0]])[0];
      if good {
        ReaddStep(d, used, free, head, done, cursor);
      }
      Recycle();
      FlagsOf(d, desc[..], y);
      if good {
        consumed := consumed + [d[head].pkt];
        head, done := Next(desc.Length, head), done - 1;
      }
    }

    /** The head of the used list goes behind the free ones, and the first of these is armed. */
    method Recycle()
      requires InTable() && used != []
      modifies this`used, this`free, this`rxBytes, desc
      ensures InTable() && rxBytes == old(rxBytes + |desc[used[0]].pkt|)
      ensures var f := old(free + [used[0]]);
              used == old(used)[1..] + [f[0]] && free == f[1..] && desc[..] == Armed(old(desc[..]), f[0], [])
      ensures used + free == old((used + free)[1..]) + [old(used[0])]
    {
      hide Armed;
      var x := used[0];
      rxBytes := rxBytes + |desc[x].pkt|;
      free, used := free + [x], used[1..];
      ArmFree();
    }

    /** The core stores a packet if the descriptor at its cursor is enabled. */
    method CoreReceive(p: Packet) returns (stored: bool, irq: bool)
      requires Ring()
      modifies this`cursor, this`done, this`received, desc
      ensures Ring() && (stored <==> 0 <= old(cursor) < desc.Length && old(desc[cursor].en))
      ensures stored ==> received == old(received) + [p] && done == old(done) + 1 && irq == old(desc[cursor].ie)
      ensures stored ==> old(done) < |used| && old(cursor) == used[old(done)]
      ensures !stored ==> !irq && received == old(received) && done == old(done) && desc[..] == old(desc[..])
      ensures forall i | 0 <= i < desc.Length :: desc[i].ie == old(desc[i].ie)
    {
      CursorInTable(desc[..], used, free, head, done, cursor);
      if !desc[cursor].en {
        return false, false;
      }
      ghost var d := desc[..];
      CompleteStep(d, used, free, head, done, cursor, p);
      irq := desc[cursor].ie;
      var wrap := desc[cursor].wrap;
      desc[cursor] := desc[cursor].(en := false, pkt := p);
      assert desc[..] == Completed(d, cursor, p);
      cursor := if wrap then 0 else cursor + 1;
      received := received + [p];
      done := done + 1;
      return true, irq;
    }

    /** grspw2_get_num_pkts_avail counts the packets received and not yet consumed. */
    method NumPktsAvail() returns (n: nat)
      requires Ring()
      ensures n == |received| - |consumed|
    {
      n := 0;
      while n < |used| && !desc[used[n]].en
        invariant n <= done
      {
        n := n + 1;
      }
    }

    /** Move the interrupt flag from idx_drop to `idx`. */
    method MoveFlag(idx: int)
      requires Ring() && 0 <= idx < desc.Length && 0 <= idxDrop < desc.Length
      modifies this`idxDrop, desc
      ensures Ring() && idxDrop == idx
      ensures forall i | 0 <= i < desc.Length ::
                desc[i] == old(desc[i]).(ie := i == idx || (i != old(idxDrop) && old(desc[i].ie)))
    {
      hide InOrder, Packets;
      ghost var d := desc[..];
      desc[idxDrop] := desc[idxDrop].(ie := false);
      idxDrop := idx;
      desc[idx] := desc[idx].(ie := true);
      FlagsDoNotMatter(d, desc[..], used, free, head, done, cursor);
    }

    /** After one packet was picked up, the flag moves on by one. */
    method FollowHead()
      requires Ring() && 0 <= idxDrop < desc.Length
      modifies this`idxDrop, desc
      ensures Ring() && idxDrop == Next(desc.Length, old(idxDrop)) && 0 <= idxDrop < desc.Length
      ensures forall i | 0 <= i < desc.Length :: desc[i].ie <==> i == idxDrop || (i != old(idxDrop) && old(desc[i].ie))
    {
      hide InOrder, Packets;
      var idx := idxDrop + 1;
      if idx >= desc.Length {
        idx := idx - desc.Length;
      }
      MoveFlag(idx);
    }

    /** grspw2_drop_pkt: the oldest pending packet is consumed. */
    method DropPkt() returns (dropped: nat)
      requires Usable()
      modifies this`used, this`free, this`head, this`done, this`consumed, this`rxBytes, this`idxDrop, desc
      ensures Usable() && unchanged(this`cursor, this`received) && |used| == |old(used)|
      ensures (old(Valid()) ==> Valid()) && (old(Flowing()) ==> Flowing())
      ensures dropped == if |old(received)| == |old(consumed)| then 0 else 1
      ensures dropped == 0 ==> consumed == old(consumed)
      ensures dropped == 1 ==> consumed == old(received)[..|old(consumed)| + 1]
      ensures autoDrop ==> Sessions.Orderly(Offsets()) == Sessions.Step(old(Offsets()), Sessions.Consume)
    {
      hide InOrder;
      ListsDistinct(desc[..], used, free, head, done, cursor);
      if used == [] {
        return 0;
      }
      HeadDone(desc[..], used, free, head, done, cursor);
      if desc[used[0]].en {
        return 0;
      }
      Consume();
      return 1;
    }

    /** The completed head is released and armed again; during a session the flag follows. */
    method Consume()
      requires Usable() && done > 0
      modifies this`used, this`free, this`head, this`done, this`consumed, this`rxBytes, this`idxDrop, desc
      ensures Usable() && unchanged(this`cursor, this`received) && |used| == |old(used)|
      ensures autoDrop ==> Sessions.Orderly(Offsets()) == Sessions.Step(old(Offsets()), Sessions.Consume)
      ensures (old(Valid()) ==> Valid()) && (old(Flowing()) ==> Flowing())
      ensures |consumed| == |old(consumed)| + 1 <= |received| && consumed == received[..|consumed|]
      ensures consumed == old(consumed) + [old(desc[head].pkt)]
    {
      hide InOrder, Packets, TotalSize, FlagSet;
      ghost var was := Offsets();
      Placed(this);
      ConsumedPrefix(this);
      Release();
      ConsumedPrefix(this);
      if autoDrop {
        SessionStep(was, Sessions.Consume);
      }
    }

    /** The same, seen from the head. */
    method Release()
      requires Usable() && done > 0
      modifies this`used, this`free, this`head, this`done, this`consumed, this`rxBytes, this`idxDrop, desc
      ensures Usable() && unchanged(this`cursor, this`received) && |used| == |old(used)| && done == old(done) - 1
      ensures consumed == old(consumed) + [old(desc[head].pkt)]
      ensures autoDrop ==> Offsets().flags == Sessions.Turn(old(Offsets()), 1)
    {
      hide InOrder, Packets, TotalSize, FlagSet;
      ghost var d, h := desc[..], head;
      ListsDistinct(d, used, free, head, done, cursor);
      ReleaseStep(d, used, free, head, done, cursor);
      Readd();
      HeadInTable(desc[..], used, free, head, done, cursor);
      if autoDrop {
        FlagFollows(d, h);
      }
    }

    /** The head has moved on from `h`, and the session's flag follows. */
    method FlagFollows(ghost d: seq<Desc<Packet>>, ghost h: nat)
      requires Ring() && |d| == desc.Length && h < |d| && head == Next(|d|, h) < |d| && nDrop < |d|
      requires idxDrop == At(|d|, h, nDrop) && forall i | 0 <= i < |d| :: desc[i].ie == d[i].ie
      modifies this`idxDrop, desc
      ensures Ring() && idxDrop == At(desc.Length, head, nDrop) && 0 <= idxDrop < desc.Length && desc[idxDrop].ie
      ensures FlagSet(desc[..], head) ==
                {nDrop} + set f | f in FlagSet(d, h) && f != nDrop :: Sessions.Back(desc.Length, f, 1)
    {
      hide Ring, FlagSet;
      FollowHead();
      TurnFlags(d, desc[..], h, nDrop, 1);
    }

    /** grspw2_get_pkt; without a buffer only the size of the pending packet is returned. */
    method GetPkt(buffer: bool) returns (size: int, copy: Copy)
      requires Usable()
      modifies this`used, this`free, this`head, this`done, this`consumed, this`rxBytes, this`idxDrop, desc
      ensures Usable() && unchanged(this`cursor, this`received) && |used| == |old(used)|
      ensures (old(Valid()) ==> Valid()) && (old(Flowing()) ==> Flowing())
      ensures |old(received)| == |old(consumed)| ==> size == 0 && copy == Nothing && consumed == old(consumed)
      ensures |old(received)| > |old(consumed)| ==>
                var p := old(received)[|old(consumed)|];
                && size == (|p| - strip) % SIZE_LIMIT
                && if buffer then copy == CopyOf(p, strip) && consumed == old(consumed) + [p]
                   else copy == Nothing && consumed == old(consumed)
      ensures |old(received)| > |old(consumed)| ==>
                var p := old(received)[|old(consumed)|];
                && (strip <= |p| < SIZE_LIMIT ==> size == |p| - strip && (buffer ==> copy == Bytes(p[strip..])))
                && (|p| < strip <= SIZE_LIMIT ==>
                      size == SIZE_LIMIT + |p| - strip && (buffer ==> copy == Beyond(SIZE_LIMIT + |p| - strip)))
    {
      hide InOrder, Packets, TotalSize, FlagSet, CopyOf;
      size, copy := 0, Nothing;
      var found, p := HeadPacket();
      if !found {
        return;
      }
      CopyIs(p, strip);
      size := (|p| - strip) % SIZE_LIMIT;
      if !buffer {
        return;
      }
      copy := CopyOf(p, strip);
      Consume();
    }

    /** The oldest packet that is not consumed yet. */
    method HeadPacket() returns (found: bool, p: Packet)
      requires Ring()
      ensures found <==> |received| > |consumed|
      ensures |received| >= |consumed| && (found <==> done > 0)
      ensures found ==> head < desc.Length && p == received[|consumed|] == desc[head].pkt
    {
      hide InOrder;
      p := [];
      ListsDistinct(desc[..], used, free, head, done, cursor);
      if used == [] {
        return false, p;
      }
      HeadDone(desc[..], used, free, head, done, cursor);
      if desc[used[0]].en {
        return false, p;
      }
      ReleaseStep(desc[..], used, free, head, done, cursor);
      return true, desc[used[0]].pkt;
    }

    /**
     grspw2_auto_drop_call: `nDrop` descriptors are recycled from the head of the used list. The ring stays in
     order exactly if the core has completed that many.
     */
    method AutoDropCall()
      requires Ring() && 0 <= idxDrop < desc.Length && nDrop < desc.Length
      modifies this`used, this`free, this`head, this`done, this`consumed, this`rxBytes, this`idxDrop, desc
      ensures unchanged(this`cursor, this`received) && 0 <= idxDrop < desc.Length && |used| == |old(used)|
      ensures Orderly() <==> nDrop <= old(done) || old(used) == []
      ensures nDrop <= old(done) ==>
                Ring() && done == old(done) - nDrop && consumed == old(received)[..|old(consumed)| + nDrop]
      ensures nDrop <= old(done) ==>
                head == At(desc.Length, old(head), nDrop) && idxDrop == At(desc.Length, old(idxDrop), nDrop)
      ensures forall i | 0 <= i < desc.Length :: desc[i].ie <==> i == idxDrop || (i != old(idxDrop) && old(desc[i].ie))
    {
      hide InOrder, Packets, TotalSize, Turned, Orderly;
      ghost var h0, d0, c0 := head, done, |consumed|;
      RingTurns(desc[..], used, free, head, done, cursor);
      hide Ring;
      var idx := idxDrop + nDrop;
      if idx >= desc.Length {
        idx := idx - desc.Length;
      }
      MoveFlag(idx);
      TurnedStart(this);
      ghost var i := DropHeads(h0, d0, c0);
      TurnedEnd(this, h0, d0, c0, i);
    }

    /** Its loop, which ends at once when no descriptor is used. */
    method DropHeads(ghost h0: nat, ghost d0: nat, ghost c0: nat) returns (ghost turns: nat)
      requires Turned(h0, d0, c0, 0) && h0 < desc.Length && nDrop < desc.Length
      modifies this`used, this`free, this`head, this`done, this`consumed, this`rxBytes, desc
      ensures Turned(h0, d0, c0, turns) && |used| == |old(used)| && turns == if used == [] then 0 else nDrop
      ensures forall j | 0 <= j < desc.Length :: desc[j].ie == old(desc[j].ie)
    {
      hide Turned;
      var i := 0;
      while i < nDrop
        invariant i <= nDrop && |used| == |old(used)| && Turned(h0, d0, c0, i) && (used == [] ==> i == 0)
        invariant forall j | 0 <= j < desc.Length :: desc[j].ie == old(desc[j].ie)
      {
        if used == [] {
          break;
        }
        DropOne(h0, d0, c0, i);
        i := i + 1;
      }
      return i;
    }

    /** After `i` descriptors were recycled from a ring with head `h0` and `d0` of them completed. */
    ghost predicate Turned(h0: nat, d0: nat, c0: nat, i: nat)
      reads this, desc
    {
      && InTable() && used + free == Rotation(desc.Length, At(desc.Length, h0, i))
      && (i <= d0 ==> Ring() && done == d0 - i && head == At(desc.Length, h0, i) && |consumed| == c0 + i)
      && (i >= d0 ==> forall j | 0 <= j < |used| :: desc[used[j]].en)
    }

    /** One turn of the loop. */
    method DropOne(ghost h0: nat, ghost d0: nat, ghost c0: nat, ghost i: nat)
      requires Turned(h0, d0, c0, i) && used != [] && h0 < desc.Length && i + 1 < desc.Length
      modifies this`used, this`free, this`head, this`done, this`consumed, this`rxBytes, desc
      ensures Turned(h0, d0, c0, i + 1) && |used| == |old(used)|
      ensures forall j | 0 <= j < desc.Length :: desc[j].ie == old(desc[j].ie)
    {
      hide InOrder, Packets, TotalSize;
      ghost var n := desc.Length;
      RotationStep(n, At(n, h0, i));
      assert (used + free)[0] == used[0] == At(n, h0, i);
      ghost var was := used;
      Readd();
      assert used[..|used| - 1] == was[1..] by {
        assert (used + free)[..|used| - 1] == used[..|used| - 1];
      }
      if i + 1 == d0 {
        AllEnabled(desc[..], used, free, head, done, cursor);
      } else if i >= d0 {
        forall j | 0 <= j < |used| ensures desc[used[j]].en {
          assert j < |used| - 1 ==> used[j] == was[j + 1];
        }
      }
    }

    /** A packet arrives; during a session the interrupt is taken with the completion that raises it. */
    method Receive(p: Packet) returns (stored: bool)
      requires Usable()
      modifies this, desc
      ensures unchanged(this`autoDrop, this`nDrop) && |used| == |old(used)|
      ensures stored <==> 0 <= old(cursor) < desc.Length && old(desc[cursor].en)
      ensures stored ==> received == old(received) + [p]
      ensures !stored ==> received == old(received) && consumed == old(consumed)
      ensures var irq := autoDrop && stored && old(desc[cursor].ie);
              && (!irq ==> used == old(used) && head == old(head) && done == old(done) + if stored then 1 else 0)
              && (Orderly() <==> !(irq && nDrop > old(done) + 1))
              && (Orderly() ==> Usable())
              && (Orderly() ==> |consumed| == |old(consumed)| + (if irq then nDrop else 0) <= |received|)
              && (Orderly() ==> consumed == received[..|consumed|])
              && (!irq ==> forall i | 0 <= i < desc.Length :: desc[i].ie == old(desc[i].ie))
      ensures autoDrop && (stored || |used| == desc.Length) ==>
                var o := Sessions.Step(old(Offsets()), Sessions.Arrive);
                (Orderly() <==> o.Orderly?) && (Orderly() ==> Offsets() == o.s)
      ensures (old(Valid()) ==> Valid()) && (old(Flowing()) ==> stored && Flowing())
    {
      hide InOrder, Packets, TotalSize, FlagSet;
      ghost var was := Offsets();
      Placed(this);
      var irq;
      stored, irq := Complete(p);
      if autoDrop && irq {
        Interrupt();
      }
      if autoDrop {
        SessionStep(was, Sessions.Arrive);
      }
    }

    /** The core's part of it, seen from the head. */
    method Complete(p: Packet) returns (stored: bool, irq: bool)
      requires Usable()
      modifies this`cursor, this`done, this`received, desc
      ensures Usable() && (stored <==> 0 <= old(cursor) < desc.Length && old(desc[cursor].en))
      ensures stored <==> old(done) < |used|
      ensures irq <==> stored && old(done) in old(Offsets()).flags
      ensures stored ==> 0 <= old(cursor) < desc.Length && irq == old(desc[cursor].ie)
      ensures received == if stored then old(received) + [p] else old(received)
      ensures done == old(done) + if stored then 1 else 0
      ensures Offsets().flags == old(Offsets()).flags
      ensures forall i | 0 <= i < desc.Length :: desc[i].ie == old(desc[i].ie)
    {
      hide InOrder, Packets, TotalSize, FlagSet, At;
      ghost var d, h := desc[..], head;
      Placed(this);
      HeadInTable(d, used, free, head, done, cursor);
      RingTurns(d, used, free, head, done, cursor);
      CursorInTable(d, used, free, head, done, cursor);
      CursorBusy(d, used, free, head, done, cursor);
      if done < |used| {
        FlagAt(d, h, done);
        assert d[cursor].ie <==> done in Offsets().flags;
      }
      if autoDrop {
        AtBelow(|d|, h, nDrop);
      }
      hide Ring;
      stored, irq := CoreReceive(p);
      FlagsKept(d, desc[..], h);
    }

    /** The interrupt of a session, seen from the head. */
    method Interrupt()
      requires Usable() && autoDrop && done > 0
      modifies this`used, this`free, this`head, this`done, this`consumed, this`rxBytes, this`idxDrop, desc
      ensures unchanged(this`cursor, this`received) && |used| == |old(used)|
      ensures Orderly() <==> nDrop <= old(done)
      ensures Orderly() ==> Usable() && done == old(done) - nDrop
      ensures Orderly() ==> Offsets().flags == Sessions.Turn(old(Offsets()), nDrop)
      ensures Orderly() ==> |consumed| == |old(consumed)| + nDrop <= |received| && consumed == received[..|consumed|]
    {
      hide InOrder, Packets, TotalSize, FlagSet;
      ghost var d, h := desc[..], head;
      ListsDistinct(d, used, free, head, done, cursor);
      AutoDropCall();
      if nDrop <= old(done) {
        TurnFlags(d, desc[..], h, nDrop, nDrop);
        HeadInTable(desc[..], used, free, head, done, cursor);
      }
    }

    /** The places behind the head with a flag, if a session with `k` packets to drop starts now. */
    ghost function Starting(k: nat): Sessions.Drops
      requires head < desc.Length
      reads this, desc
    {
      Sessions.Drops(desc.Length, k, done, FlagSet(desc[..], head) + {k})
    }

    /**
     grspw2_auto_drop_enable. The ring stays in order in every continuation exactly if the state is safe, which
     SpwSession.SafeExactly says of these places. It never runs full if no other flag is set, at least one packet is
     dropped at a time, and the flagged descriptor is not completed yet.
     */
    method AutoDropEnable(n: nat) returns (ret: int)
      requires Usable() && used != []
      modifies this`autoDrop, this`nDrop, this`idxDrop, desc
      ensures Usable() && unchanged(this`used, this`free, this`head, this`done, this`received, this`consumed)
      ensures old(autoDrop) ==> ret == -1 && desc[..] == old(desc[..]) && (old(Valid()) <==> Valid())
      ensures !old(autoDrop) ==> ret == 0 && autoDrop && Offsets() == old(Starting(Clamped(n, desc.Length)))
      ensures !old(autoDrop) ==> nDrop == if n < desc.Length then n else desc.Length - 1
      ensures !old(autoDrop) ==> (Valid() <==> Sessions.Safe(Offsets())) && Sessions.Formed(Offsets())
      ensures !old(autoDrop) && |used| == desc.Length ==>
                (Flowing() <==> FlagSet(old(desc[..]), head) <= {nDrop} && nDrop >= 1 && done <= nDrop)
      ensures !old(autoDrop) ==> forall i | 0 <= i < desc.Length :: desc[i].ie <==> i == idxDrop || old(desc[i].ie)
    {
      hide InOrder, Packets, TotalSize, FlagSet, Sessions.Safe;
      if autoDrop {
        return -1;
      }
      ListsDistinct(desc[..], used, free, head, done, cursor);
      FlagsBelow(desc[..], head);
      HeadDone(desc[..], used, free, head, done, cursor);
      nDrop := Clamped(n, desc.Length);
      var idx := used[0] + nDrop;
      if idx >= desc.Length {
        idx := idx - desc.Length;
      }
      autoDrop := true;
      idxDrop := idx;
      ghost var d := desc[..];
      desc[idx] := desc[idx].(ie := true);
      FlagsDoNotMatter(d, desc[..], used, free, head, done, cursor);
      FlagSetMore(d, desc[..], head, nDrop);
      return 0;
    }

    /** grspw2_auto_drop_disable leaves the interrupt flag where it stands. */
    method AutoDropDisable() returns (ret: int)
      requires Usable()
      modifies this`autoDrop
      ensures Valid() && !autoDrop && ret == if old(autoDrop) then 0 else -1
      ensures desc[..] == old(desc[..])
      ensures old(autoDrop) ==> 0 <= idxDrop < desc.Length && desc[idxDrop].ie
    {
      ret := if autoDrop then 0 else -1;
      autoDrop := false;
    }
  }

  /** The places behind `h` whose descriptors have the interrupt flag. */
  ghost function FlagSet(d: seq<Desc<Packet>>, h: nat): set<nat>
    requires h < |d|
  {
    set f: nat | f < |d| && d[At(|d|, h, f)].ie
  }

  lemma FlagsBelow(d: seq<Desc<Packet>>, h: nat)
    requires h < |d|
    ensures forall f | f in FlagSet(d, h) :: f < |d|
    ensures forall f: nat | f < |d| :: f in FlagSet(d, h) <==> d[At(|d|, h, f)].ie
  {}

  lemma FlagAt(d: seq<Desc<Packet>>, h: nat, f: nat)
    requires h < |d| && f < |d|
    ensures f in FlagSet(d, h) <==> d[At(|d|, h, f)].ie
  {}

  lemma FlagsKept(d: seq<Desc<Packet>>, d': seq<Desc<Packet>>, h: nat)
    requires h < |d| == |d'| && forall i | 0 <= i < |d| :: d'[i].ie == d[i].ie
    ensures FlagSet(d', h) == FlagSet(d, h)
  {}

  /** One more flag. */
  lemma FlagSetMore(d: seq<Desc<Packet>>, d': seq<Desc<Packet>>, h: nat, k: nat)
    requires h < |d| == |d'| && k < |d| && forall i | 0 <= i < |d| :: d'[i].ie <==> i == At(|d|, h, k) || d[i].ie
    ensures FlagSet(d', h) == FlagSet(d, h) + {k}
  {
    forall f: nat | f < |d| ensures f in FlagSet(d', h) <==> f in FlagSet(d, h) || f == k {
      assert At(|d|, h, f) == At(|d|, h, k) <==> f == k;
    }
  }

  /** The head moves on by `a` places and the session's flag with it. */
  lemma TurnFlags(d: seq<Desc<Packet>>, d': seq<Desc<Packet>>, h: nat, k: nat, a: nat)
    requires h < |d| == |d'| && k < |d| && a <= |d| && (a < |d| || |d| == 1)
    requires forall i | 0 <= i < |d| ::
               d'[i].ie <==> i == At(|d|, At(|d|, h, a), k) || (i != At(|d|, h, k) && d[i].ie)
    ensures FlagSet(d', At(|d|, h, a)) == {k} + set f | f in FlagSet(d, h) && f != k :: Sessions.Back(|d|, f, a)
  {
    hide At, Sessions.Back, FlagSet;
    var n, h' := |d|, At(|d|, h, a);
    AtBelow(n, h, a);
    var was, now := FlagSet(d, h), FlagSet(d', h');
    var turned := set f | f in was && f != k :: Sessions.Back(n, f, a);
    FlagsBelow(d, h);
    FlagsBelow(d', h');
    forall j: nat | j < n ensures j in now <==> j == k || j in turned {
      var f := TurnedPlace(n, h, a, j);
      SamePlace(n, h, f, k);
      SamePlace(n, h', j, k);
      AtBelow(n, h, f);
      assert j in now <==> j == k || (f != k && f in was);
      if j in turned {
        var g :| g in was && g != k && Sessions.Back(n, g, a) == j;
        assert g == f;
      }
    }
    forall j | j in turned ensures j < n {
      var g :| g in was && g != k && Sessions.Back(n, g, a) == j;
      BackBelow(n, g, a);
    }
  }

  lemma AtBelow(n: nat, h: nat, i: nat)
    requires h < n && i <= n
    ensures 0 <= At(n, h, i) < n
  {}

  lemma SamePlace(n: nat, h: nat, i: nat, j: nat)
    requires h < n && i < n && j < n
    ensures At(n, h, i) == At(n, h, j) <==> i == j
  {}

  lemma BackBelow(n: nat, f: nat, a: nat)
    requires f < n && a <= n
    ensures Sessions.Back(n, f, a) < n
  {}

  /** The place that comes to be `j` behind the head when that moves on by `a`. */
  lemma TurnedPlace(n: nat, h: nat, a: nat, j: nat) returns (f: nat)
    requires h < n && j < n && a <= n && (a < n || n == 1)
    ensures f < n && At(n, At(n, h, a), j) == At(n, h, f) && Sessions.Back(n, f, a) == j
    ensures forall g: nat | g < n && Sessions.Back(n, g, a) == j :: g == f
  {
    f := if j + a < n then j + a else j + a - n;
  }

  lemma SessionStep(s: Sessions.Drops, m: Sessions.Move)
    requires Sessions.Formed(s)
    ensures Sessions.Safe(s) ==> Sessions.Step(s, m).Orderly? && Sessions.Safe(Sessions.Step(s, m).s)
    ensures Sessions.Flowing(s) ==>
              Sessions.Step(s, m).Orderly? && Sessions.Flowing(Sessions.Step(s, m).s) && s.done < s.n
  {
    if Sessions.Safe(s) {
      Sessions.SafeStep(s, m);
    }
    if Sessions.Flowing(s) {
      Sessions.FlowStep(s, m);
    }
  }

  /** What is known of a session's places. */
  lemma Placed(ring: RxRing)
    requires ring.Usable()
    ensures ring.done <= |ring.used| <= ring.desc.Length && (ring.autoDrop ==> Sessions.Formed(ring.Offsets()))
  {
    ListsDistinct(ring.desc[..], ring.used, ring.free, ring.head, ring.done, ring.cursor);
  }

  lemma ConsumedPrefix(ring: RxRing)
    requires ring.Ring()
    ensures |ring.consumed| <= |ring.received| && ring.consumed == ring.received[..|ring.consumed|]
  {}

  lemma DoneIs(ring: RxRing)
    requires ring.Ring()
    ensures |ring.received| - |ring.consumed| == ring.done
  {}

  /** The number of packets to drop, clamped so that one descriptor stays usable. */
  function Clamped(n: nat, size: nat): nat { if size > 0 && n >= size then size - 1 else n }

  /** Releasing the completed head and arming the first free descriptor. */
  lemma ReaddStep(d: seq<Desc<Packet>>, used: seq<int>, free: seq<int>, head: nat, done: nat, cursor: int)
    requires InOrder(d, used, free, head, done, cursor) && done > 0
    ensures used != [] && used[0] == head < |d| && 0 <= (free + [used[0]])[0] < |d| && done <= |used|
    ensures var free1, used1 := free + [used[0]], used[1..];
            var d1, used2 := Armed(d, free1[0], []), used1 + [free1[0]];
            && InOrder(d1, used2, free1[1..], Next(|d|, head), done - 1, cursor)
            && (forall i | 0 <= i < |used2| :: 0 <= used2[i] < |d|)
            && (forall i | 0 <= i < |used| :: 0 <= used[i] < |d|)
            && Packets(d, used[..done]) == [d[head].pkt] + Packets(d1, used2[..done - 1])
  {
    hide InOrder, Packets;
    ReleaseStep(d, used, free, head, done, cursor);
    var free1, used1 := free + [used[0]], used[1..];
    ListsDistinct(d, used1, free1, Next(|d|, head), done - 1, cursor);
    ArmStep(d, used1, free1, Next(|d|, head), done - 1, cursor, []);
    ListsDistinct(Armed(d, free1[0], []), used1 + [free1[0]], free1[1..], Next(|d|, head), done - 1, cursor);
  }

  lemma TurnedStart(ring: RxRing)
    requires ring.Ring()
    ensures ring.Turned(ring.head, ring.done, |ring.consumed|, 0)
  {
    ListsDistinct(ring.desc[..], ring.used, ring.free, ring.head, ring.done, ring.cursor);
    RingTurns(ring.desc[..], ring.used, ring.free, ring.head, ring.done, ring.cursor);
  }

  /** In order exactly if no more were recycled than completed. */
  lemma TurnedEnd(ring: RxRing, h0: nat, d0: nat, c0: nat, i: nat)
    requires ring.Turned(h0, d0, c0, i) && h0 < ring.desc.Length && i < ring.desc.Length
    requires ring.cursor == At(ring.desc.Length, h0, d0) && (ring.used == [] ==> i == 0)
    ensures ring.Orderly() <==> i <= d0
    ensures i <= d0 ==> ring.Ring() && ring.done == d0 - i && |ring.consumed| == c0 + i
    ensures i <= d0 ==> ring.head == At(ring.desc.Length, h0, i)
    ensures i <= d0 ==> |ring.consumed| <= |ring.received| && ring.consumed == ring.received[..|ring.consumed|]
  {
    hide InOrder;
    if i > d0 {
      var h := At(ring.desc.Length, h0, i);
      assert (ring.used + ring.free)[0] == ring.used[0] == h;
      NotInOrder(ring.desc[..], ring.used, ring.free, h, ring.cursor);
    }
  }

  lemma FlagsOf(d: seq<Desc<Packet>>, d': seq<Desc<Packet>>, x: int)
    requires 0 <= x < |d| && d' == Armed(d, x, [])
    ensures |d'| == |d| && d'[x].en && forall i | 0 <= i < |d| :: d'[i].ie == d[i].ie && (d[i].en ==> d'[i].en)
  {}

  /** The lists are a rotation; with nothing completed all used descriptors are enabled. */
  lemma RingTurns<T>(d: seq<Desc<T>>, used: seq<int>, free: seq<int>, head: nat, done: nat, cursor: int)
    requires InOrder(d, used, free, head, done, cursor)
    ensures head < |d| && used + free == Rotation(|d|, head) && head == At(|d|, head, 0)
            && cursor == At(|d|, head, done)
    ensures done == 0 ==> forall j | 0 <= j < |used| :: 0 <= used[j] < |d| && d[used[j]].en
    ensures done <= |used|
  {}

  lemma AllEnabled<T>(d: seq<Desc<T>>, used: seq<int>, free: seq<int>, head: nat, done: nat, cursor: int)
    requires InOrder(d, used, free, head, done, cursor) && done == 0
    ensures forall j | 0 <= j < |used| :: 0 <= used[j] < |d| && d[used[j]].en
  {}

  /** An enabled descriptor at the head, and the core elsewhere: no reading of the ring puts it in order. */
  lemma NotInOrder<T>(d: seq<Desc<T>>, used: seq<int>, free: seq<int>, h: nat, cursor: int)
    requires h < |d| && used + free == Rotation(|d|, h) && used != [] && 0 <= used[0] < |d| && d[used[0]].en
             && cursor != h
    ensures forall head: nat, done: nat :: !InOrder(d, used, free, head, done, cursor)
  {
    forall head: nat, done: nat ensures !InOrder(d, used, free, head, done, cursor) {
      if head < |d| && used + free == Rotation(|d|, head) {
        assert Rotation(|d|, head)[0] == head && Rotation(|d|, h)[0] == h;
      }
    }
  }

  lemma HeadInTable<T>(d: seq<Desc<T>>, used: seq<int>, free: seq<int>, head: nat, done: nat, cursor: int)
    requires InOrder(d, used, free, head, done, cursor)
    ensures head < |d|
  {}

  /** The ring's order does not depend on the interrupt flags. */
  lemma FlagsDoNotMatter<T>(d: seq<Desc<T>>, d': seq<Desc<T>>, used: seq<int>, free: seq<int>, head: nat, done: nat,
                            cursor: int)
    requires InOrder(d, used, free, head, done, cursor) && |d'| == |d|
    requires forall i | 0 <= i < |d| :: d'[i].en == d[i].en && d'[i].wrap == d[i].wrap && d'[i].pkt == d[i].pkt
    ensures InOrder(d', used, free, head, done, cursor)
    ensures Packets(d', used[..done]) == Packets(d, used[..done])
  {}

  // ---------------------------------------------------------------- transmit

  datatype TxPacket = TxPacket(hdr: Packet, data: Packet)

  datatype Buffer = Null | Buffer(bytes: Packet)

  /** What the size fields of a descriptor keep of a buffer: 8 bits for a header, 24 for data. */
  function Field(b: Buffer, size: nat, limit: nat): Packet
    requires limit > 0 && (b.Buffer? ==> size <= |b.bytes|) && (b.Null? ==> size == 0)
  {
    if b.Null? then [] else b.bytes[..size % limit]
  }

  /** A descriptor takes the front of its buffer, all that was asked for up to the limit of its size field. */
  lemma FieldIs(b: Buffer, size: nat, limit: nat)
    requires limit > 0 && (b.Buffer? ==> size <= |b.bytes|) && (b.Null? ==> size == 0)
    ensures |Field(b, size, limit)| == (if b.Null? then 0 else size % limit)
    ensures b.Buffer? ==> Field(b, size, limit) <= b.bytes
    ensures b.Buffer? && size < limit ==> Field(b, size, limit) == b.bytes[..size]
  {}

  /** The packet that a well-formed request asks for. */
  ghost predicate AskedFor(p: TxPacket, hdr: Buffer, hdrSize: nat, data: Buffer, dataSize: nat)
    requires (hdr.Buffer? ==> hdrSize <= |hdr.bytes|) && (data.Buffer? ==> dataSize <= |data.bytes|)
  {
    && p.hdr == (if hdr.Null? then [] else hdr.bytes[..hdrSize])
    && p.data == (if data.Null? then [] else data.bytes[..dataSize])
  }

  class TxRing {
    const desc: array<Desc<TxPacket>>
    var used: seq<int>
    var free: seq<int>
    var cursor: int
    var txBytes: nat
    ghost var head: nat
    ghost var done: nat
    ghost var accepted: seq<TxPacket>
    ghost var sent: seq<TxPacket>

    /** The packets accepted are those sent, followed by those waiting in the ring, in order. */
    ghost predicate Valid()
      reads this, desc
    {
      InOrder(desc[..], used, free, head, done, cursor) && accepted == sent + Packets(desc[..], used[done..])
    }

    /** grspw2_tx_desc_table_init. */
    constructor (n: nat)
      requires n > 0
      ensures Valid() && fresh(desc) && desc.Length == n && accepted == [] && sent == []
    {
      var table := new Desc<TxPacket>[n](_ => Desc(false, false, false, TxPacket([], [])));
      desc := table;
      used, free, cursor, txBytes := [], seq(n, i => i), 0, 0;
      head, done, accepted, sent := 0, 0, [], [];
      new;
      assert free == Rotation(n, 0);
      assert used + free == free;
      assert accepted == sent + Packets(desc[..], used[done..]);
    }

    /** grspw2_tx_desc_move_free_all: every completed descriptor becomes free. */
    method MoveFreeAll()
      requires Valid()
      modifies this`used, this`free, this`head, this`done
      ensures Valid() && done == 0 && used == old(used)[old(done)..]
    {
      hide Packets, InOrder;
      ListsDistinct(desc[..], used, free, head, done, cursor);
      while used != [] && !desc[used[0]].en
        invariant Valid() && done <= old(done) <= |old(used)| && used == old(used)[old(done) - done..]
        invariant used != [] ==> 0 <= used[0] < desc.Length
        decreases |used|
      {
        MoveFree();
      }
      if used != [] {
        HeadDone(desc[..], used, free, head, done, cursor);
      }
    }

    /** grspw2_tx_desc_move_free of the completed head. */
    method MoveFree()
      requires Valid() && used != [] && 0 <= used[0] < desc.Length && !desc[used[0]].en
      modifies this`used, this`free, this`head, this`done
      ensures Valid() && used == old(used)[1..] && old(done) > 0 && done == old(done) - 1
      ensures used != [] ==> 0 <= used[0] < desc.Length
    {
      hide Packets, InOrder;
      HeadDone(desc[..], used, free, head, done, cursor);
      ReleaseStep(desc[..], used, free, head, done, cursor);
      free, used := free + [used[0]], used[1..];
      head, done := Next(desc.Length, head), done - 1;
      ListsDistinct(desc[..], used, free, head, done, cursor);
    }

    /** grspw2_tx_desc_add_pkt: a well-formed packet is refused only when every descriptor is busy. */
    method DescAddPkt(hdr: Buffer, hdrSize: nat, data: Buffer, dataSize: nat) returns (ret: int)
      requires Valid()
      requires hdr.Buffer? ==> hdrSize <= |hdr.bytes|
      requires data.Buffer? ==> dataSize <= |data.bytes|
      modifies this`used, this`free, this`head, this`done, this`accepted, desc
      ensures Valid() && sent == old(sent) && ret in {0, -1}
      ensures (hdr.Null? && hdrSize > 0) || (data.Null? && dataSize > 0) ==> ret == -1
      ensures ret == -1 ==> accepted == old(accepted)
      ensures (hdr.Null? ==> hdrSize == 0) && (data.Null? ==> dataSize == 0) ==>
                (ret == -1 <==> |old(accepted)| - |sent| == desc.Length)
      ensures ret == 0 ==> (hdr.Null? ==> hdrSize == 0) && (data.Null? ==> dataSize == 0)
      ensures ret == 0 ==>
                accepted == old(accepted) + [TxPacket(Field(hdr, hdrSize, 0x100), Field(data, dataSize, 0x100_0000))]
      ensures ret == 0 && hdrSize < 0x100 && dataSize < 0x100_0000 ==>
                AskedFor(accepted[|old(accepted)|], hdr, hdrSize, data, dataSize)
    {
      hide InOrder, Field, Packets;
      if hdrSize > 0 && hdr.Null? {
        return -1;
      }
      if dataSize > 0 && data.Null? {
        return -1;
      }
      MoveFreeAll();
      ListsDistinct(desc[..], used, free, head, done, cursor);
      if free == [] {
        return -1;
      }
      FieldIs(hdr, hdrSize, 0x100);
      FieldIs(data, dataSize, 0x100_0000);
      Fill(TxPacket(Field(hdr, hdrSize, 0x100), Field(data, dataSize, 0x100_0000)));
      return 0;
    }

    /** The first free descriptor takes the packet, is enabled and becomes the last of the used ones. */
    method Fill(p: TxPacket)
      requires Valid() && free != [] && 0 <= free[0] < desc.Length
      modifies this`used, this`free, this`accepted, desc
      ensures Valid() && accepted == old(accepted) + [p]
    {
      hide InOrder, Packets;
      var x := free[0];
      ghost var d := desc[..];
      ArmStep(d, used, free, head, done, cursor, p);
      ListsDistinct(d, used, free, head, done, cursor);
      desc[x] := desc[x].(pkt := p);
      if x == desc.Length - 1 {
        desc[x] := desc[x].(wrap := true);
      }
      desc[x] := desc[x].(en := true);
      assert desc[..] == Armed(d, x, p);
      hide Armed;
      used, free := used + [x], free[1..];
      accepted := accepted + [p];
    }

    /** grspw2_add_pkt: the byte counter follows the sizes asked for. */
    method AddPkt(hdr: Buffer, hdrSize: nat, data: Buffer, dataSize: nat) returns (ret: int)
      requires Valid()
      requires hdr.Buffer? ==> hdrSize <= |hdr.bytes|
      requires data.Buffer? ==> dataSize <= |data.bytes|
      modifies this`used, this`free, this`head, this`done, this`accepted, this`txBytes, desc
      ensures Valid() && sent == old(sent)
      ensures ret == 0 ==> |accepted| == |old(accepted)| + 1 && txBytes == old(txBytes) + hdrSize + dataSize
      ensures ret == 0 ==> old(accepted) <= accepted
      ensures ret == 0 && hdrSize < 0x100 && dataSize < 0x100_0000 ==>
                AskedFor(accepted[|old(accepted)|], hdr, hdrSize, data, dataSize)
      ensures (hdr.Null? ==> hdrSize == 0) && (data.Null? ==> dataSize == 0) ==>
                (ret == -1 <==> |old(accepted)| - |sent| == desc.Length)
      ensures (hdr.Null? && hdrSize > 0) || (data.Null? && dataSize > 0) ==> ret == -1
      ensures ret != 0 ==> ret == -1 && accepted == old(accepted) && txBytes == old(txBytes)
    {
      ret := DescAddPkt(hdr, hdrSize, data, dataSize);
      if ret != 0 {
        return -1;
      }
      txBytes := txBytes + hdrSize + dataSize;
    }

    /** The core sends the packet of the descriptor at its cursor if that is enabled. */
    method CoreTransmit() returns (busy: bool)
      requires Valid()
      modifies this`cursor, this`done, this`sent, desc
      ensures Valid() && accepted == old(accepted)
      ensures busy <==> |old(sent)| < |accepted|
      ensures sent == if busy then accepted[..|old(sent)| + 1] else old(sent)
    {
      hide InOrder, Packets;
      CursorInTable(desc[..], used, free, head, done, cursor);
      CursorBusy(desc[..], used, free, head, done, cursor);
      if !desc[cursor].en {
        return false;
      }
      ghost var d := desc[..];
      var p, wrap := desc[cursor].pkt, desc[cursor].wrap;
      CompleteStep(d, used, free, head, done, cursor, p);
      desc[cursor] := desc[cursor].(en := false);
      assert desc[..] == Completed(d, cursor, p);
      cursor := if wrap then 0 else cursor + 1;
      sent := sent + [p];
      done := done + 1;
      return true;
    }
  }

  /** The descriptor at the cursor is enabled exactly when a used one is not completed. */
  lemma CursorBusy<T>(d: seq<Desc<T>>, used: seq<int>, free: seq<int>, head: nat, done: nat, cursor: int)
    requires InOrder(d, used, free, head, done, cursor) && 0 <= cursor < |d|
    ensures done <= |used| && (d[cursor].en <==> done < |used|)
  {
    ListsDistinct(d, used, free, head, done, cursor);
    assert free != [] ==> free[0] == At(|d|, head, |used|) && !d[free[0]].en;
    assert used != [] ==> used[0] == head;
    assert done < |used| ==> used[done] == cursor;
  }
}
