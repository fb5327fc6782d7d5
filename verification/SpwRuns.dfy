/**
 Whole runs of the SpaceWire driver and the DMA core: any interleaving of packets, driver calls and auto-drop
 sessions, and the runs that show where the driver's limits are.
 */
module SpwRuns {
  import opened SpwRing
  import opened SpwDriver
  import Sessions = SpwSession

  // ---------------------------------------------------------------- receiving

  datatype RxEvent = Arrive(p: Packet) | Fetch(buffer: bool) | Drop | Enable(n: nat) | Disable

  /** Why a run stopped: at its end, with the ring out of order, or before a packet that is too short. */
  datatype Stop = Finished | Disorder | ShortPacket

  /** The copies of the packets that were fetched, among all that were consumed. */
  function Fetched(taken: seq<Packet>, how: seq<bool>, strip: nat): seq<Packet>
    requires |how| == |taken|
  {
    if taken == [] then [] else
      var n := |taken| - 1;
      Fetched(taken[..n], how[..n], strip) + if how[n] && strip <= |taken[n]| then [taken[n][strip..]] else []
  }

  lemma FetchedMore(taken: seq<Packet>, how: seq<bool>, strip: nat, p: Packet, b: bool)
    requires |how| == |taken|
    ensures Fetched(taken + [p], how + [b], strip) ==
            Fetched(taken, how, strip) + if b && strip <= |p| then [p[strip..]] else []
  {
    assert (taken + [p])[..|taken|] == taken && (how + [b])[..|how|] == how;
  }

  /** Packets that were dropped add nothing. */
  lemma {:induction false} FetchedDropped(taken: seq<Packet>, how: seq<bool>, strip: nat, more: seq<Packet>)
    requires |how| == |taken|
    ensures Fetched(taken + more, how + seq(|more|, _ => false), strip) == Fetched(taken, how, strip)
    decreases |more|
  {
    if more == [] {
      assert taken + more == taken && how + seq(0, _ => false) == how;
    } else {
      var n := |more| - 1;
      FetchedDropped(taken, how, strip, more[..n]);
      var h := how + seq(n, _ => false);
      FetchedMore(taken + more[..n], h, strip, more[n], false);
      assert taken + more == taken + more[..n] + [more[n]];
      assert how + seq(|more|, _ => false) == h + [false];
    }
  }

  /** One event of a run; `how` tells of every consumed packet whether it was fetched. */
  method Step(ring: RxRing, e: RxEvent, got0: seq<Packet>, stored0: seq<Packet>, ghost how0: seq<bool>,
              ghost start0: Sessions.Drops)
    returns (stop: Stop, got: seq<Packet>, stored: seq<Packet>, ghost how: seq<bool>, ghost start: Sessions.Drops)
    requires ring.Usable() && ring.received == stored0 && ring.used != [] && (Sessions.Safe(start0) ==> ring.Valid())
    requires |how0| == |ring.consumed| && got0 == Fetched(ring.consumed, how0, ring.strip)
    modifies ring, ring.desc
    ensures ring.received == stored && |ring.used| == |old(ring.used)| && (stop == Disorder <==> !ring.Orderly())
    ensures stop != Disorder ==> ring.Usable() && (Sessions.Safe(start) ==> ring.Valid())
    ensures stop != Disorder ==> |how| == |ring.consumed| && got == Fetched(ring.consumed, how, ring.strip)
    ensures stop == Disorder ==> e.Arrive? && !Sessions.Safe(start)
    ensures stop == ShortPacket ==>
              e == Fetch(true) && |stored| > |ring.consumed| && |stored[|ring.consumed|]| < ring.strip
    ensures start == if e.Enable? && !old(ring.autoDrop) then ring.Offsets() else start0
  {
    hide InOrder, Packets, Fetched, Sessions.Safe, Sessions.Step, FlagSet;
    stop, got, stored, how, start := Finished, got0, stored0, how0, start0;
    match e {
      case Arrive(p) =>
        stop, stored, how := Arrival(ring, p, stored, how, got);
      case Fetch(buffer) =>
        stop, got, how := Fetching(ring, buffer, got, stored, how);
      case Drop =>
        how := Dropping(ring, how, got);
      case Enable(n) =>
        ghost var on := ring.autoDrop;
        var ret := ring.AutoDropEnable(n);
        start := if on then start0 else ring.Offsets();
        UsableIsOrderly(ring);
      case Disable =>
        var ret := ring.AutoDropDisable();
        UsableIsOrderly(ring);
    }
  }

  method Dropping(ring: RxRing, ghost how0: seq<bool>, ghost got: seq<Packet>) returns (ghost how: seq<bool>)
    requires ring.Usable() && |how0| == |ring.consumed| && got == Fetched(ring.consumed, how0, ring.strip)
    modifies ring, ring.desc
    ensures ring.Usable() && ring.Orderly() && (old(ring.Valid()) ==> ring.Valid())
    ensures ring.received == old(ring.received) && |ring.used| == |old(ring.used)|
    ensures |how| == |ring.consumed| && got == Fetched(ring.consumed, how, ring.strip)
  {
    hide InOrder, Packets, Fetched, Sessions.Safe, Sessions.Step, FlagSet;
    how := how0;
    ghost var was := ring.consumed;
    var k := ring.DropPkt();
    UsableIsOrderly(ring);
    if k == 1 {
      FetchedMore(was, how, ring.strip, ring.consumed[|was|], false);
      how := how + [false];
      assert ring.consumed == was + [ring.consumed[|was|]];
    }
  }

  method Arrival(ring: RxRing, p: Packet, stored0: seq<Packet>, ghost how0: seq<bool>, ghost got: seq<Packet>)
    returns (stop: Stop, stored: seq<Packet>, ghost how: seq<bool>)
    requires ring.Usable() && ring.received == stored0
    requires |how0| == |ring.consumed| && got == Fetched(ring.consumed, how0, ring.strip)
    modifies ring, ring.desc
    ensures ring.received == stored && |ring.used| == |old(ring.used)| && stop != ShortPacket
    ensures stop == Disorder <==> !ring.Orderly()
    ensures stop != Disorder ==> ring.Usable() && (old(ring.Valid()) ==> ring.Valid())
    ensures stop != Disorder ==> |how| == |ring.consumed| && got == Fetched(ring.consumed, how, ring.strip)
    ensures stop == Disorder ==> !old(ring.Valid())
  {
    hide InOrder, Packets, Fetched, Sessions.Safe, Sessions.Step, FlagSet;
    stop, stored, how := Finished, stored0, how0;
    ghost var was, valid := ring.consumed, ring.Valid();
    ConsumedPrefix(ring);
    DoneIs(ring);
    var pending := ring.NumPktsAvail();
    var flagged := 0 <= ring.cursor < ring.desc.Length && ring.desc[ring.cursor].ie;
    var ok := ring.Receive(p);
    if ok {
      stored := stored + [p];
    }
    if ring.autoDrop && ok && flagged && ring.nDrop > pending + 1 {
      stop := Disorder;
      if valid {
        UsableIsOrderly(ring);
      }
      return;
    }
    ghost var more := ring.consumed[|was|..];
    assert ring.consumed == was + more;
    FetchedDropped(was, how0, ring.strip, more);
    how := how0 + seq(|more|, _ => false);
  }

  method Fetching(ring: RxRing, buffer: bool, got0: seq<Packet>, stored: seq<Packet>, ghost how0: seq<bool>)
    returns (stop: Stop, got: seq<Packet>, ghost how: seq<bool>)
    requires ring.Usable() && ring.received == stored
    requires |how0| == |ring.consumed| && got0 == Fetched(ring.consumed, how0, ring.strip)
    modifies ring, ring.desc
    ensures ring.Usable() && ring.Orderly() && (old(ring.Valid()) ==> ring.Valid())
    ensures ring.received == stored && |ring.used| == |old(ring.used)|
    ensures |how| == |ring.consumed| && got == Fetched(ring.consumed, how, ring.strip) && stop != Disorder
    ensures stop == ShortPacket ==> buffer && |stored| > |ring.consumed| && |stored[|ring.consumed|]| < ring.strip
  {
    hide InOrder, Packets, Fetched, Sessions.Safe, FlagSet;
    stop, got, how := Finished, got0, how0;
    var pending := ring.NumPktsAvail();
    ghost var was := ring.consumed;
    UsableIsOrderly(ring);
    if buffer && pending > 0 && |stored[|stored| - pending]| < ring.strip {
      stop := ShortPacket;
      return;
    }
    var size, copy := ring.GetPkt(buffer);
    UsableIsOrderly(ring);
    if copy.Bytes? {
      FetchedMore(was, how, ring.strip, stored[|was|], true);
      got, how := got + [copy.pkt], how + [true];
    }
  }

  /**
   Any interleaving of arrivals, fetches, drops and auto-drop sessions on a ring whose descriptors were all armed, as
   long as the ring is in order: what the driver consumes, fetched or dropped, is a prefix of what was received, in
   order and without a gap, and nothing received is lost. The packets handed out are the fetched ones, in order,
   without their stripped headers. Only a packet that arrives in a session that did not start safe puts the ring out of
   order; `start` is how the last session started.
   */
  method RunReceive(n: nat, strip: nat, events: seq<RxEvent>)
    returns (ring: RxRing, got: seq<Packet>, stored: seq<Packet>, upto: nat, stop: Stop, ghost how: seq<bool>,
             ghost start: Sessions.Drops)
    requires n > 0
    ensures ring.received == stored && upto <= |events| && (stop == Finished <==> upto == |events|)
    ensures stop == Disorder <==> !ring.Orderly()
    ensures stop == Disorder ==> events[upto].Arrive? && !Sessions.Safe(start)
    ensures stop != Disorder ==>
              && ring.Usable() && (Sessions.Safe(start) ==> ring.Valid())
              && ring.consumed <= stored && |how| == |ring.consumed|
              && stored == ring.consumed + Packets(ring.desc[..], ring.used[..ring.done])
              && |stored| <= |ring.consumed| + n && got == Fetched(ring.consumed, how, strip)
    ensures stop == ShortPacket ==>
              events[upto] == Fetch(true) && |stored| > |ring.consumed| && |stored[|ring.consumed|]| < strip
  {
    hide InOrder, Packets, Sessions.Safe, FlagSet;
    ring := new RxRing(n, strip);
    ring.DescAddAll();
    got, stored, how, start := [], [], [], Sessions.Drops(n, 0, 0, {});
    stop, upto := Finished, 0;
    UsableIsOrderly(ring);
    while upto < |events|
      invariant ring.Usable() && ring.Orderly() && (Sessions.Safe(start) ==> ring.Valid())
      invariant ring.received == stored && fresh(ring) && fresh(ring.desc)
      invariant ring.desc.Length == n && ring.strip == strip && |ring.used| == n
      invariant |how| == |ring.consumed| && got == Fetched(ring.consumed, how, strip)
      invariant upto <= |events| && stop == Finished
      decreases |events| - upto
    {
      stop, got, stored, how, start := Step(ring, events[upto], got, stored, how, start);
      if stop != Finished {
        if stop == Disorder {
          return;
        }
        break;
      }
      upto := upto + 1;
    }
    ListsDistinct(ring.desc[..], ring.used, ring.free, ring.head, ring.done, ring.cursor);
  }

  /**
   The first interrupt of a session, if the driver does nothing before: with the first flagged descriptor that is
   not completed yet at `m` places behind the head, it leaves the ring in order exactly if nDrop <= m + 1. Without
   a left-over flag m is nDrop.
   */
  method FirstInterrupt(ring: RxRing, ps: seq<Packet>, ghost m: nat)
    requires ring.Usable() && ring.autoDrop && ring.done <= m < |ring.used| && |ps| == m - ring.done + 1
             && ring.InTable()
    requires ring.desc[ring.used[m]].ie && forall j | ring.done <= j < m :: !ring.desc[ring.used[j]].ie
    modifies ring, ring.desc
    ensures ring.Orderly() <==> ring.nDrop <= m + 1
    ensures ring.received == old(ring.received) + ps && ring.nDrop == old(ring.nDrop)
  {
    hide InOrder, Packets;
    var last := |ps| - 1;
    Quietly(ring, ps[..last], m);
    AtCursor(ring);
    var stored := ring.Receive(ps[last]);
    assert ps[..last] + [ps[last]] == ps;
  }

  /** Packets into descriptors without a flag. */
  method Quietly(ring: RxRing, ps: seq<Packet>, ghost m: nat)
    requires ring.Usable() && ring.autoDrop && ring.done <= m < |ring.used| && |ps| == m - ring.done && ring.InTable()
    requires forall j | ring.done <= j < m :: !ring.desc[ring.used[j]].ie
    modifies ring, ring.desc
    ensures ring.Usable() && ring.autoDrop && ring.done == m && ring.used == old(ring.used)
    ensures ring.received == old(ring.received) + ps && ring.nDrop == old(ring.nDrop)
    ensures forall j | 0 <= j < ring.desc.Length :: ring.desc[j].ie == old(ring.desc[j].ie)
    decreases |ps|
  {
    hide InOrder, Packets;
    if ps != [] {
      QuietStep(ring, ps[0]);
      Quietly(ring, ps[1..], m);
      assert [ps[0]] + ps[1..] == ps;
    }
  }

  method QuietStep(ring: RxRing, p: Packet)
    requires ring.Usable() && ring.done < |ring.used| && ring.InTable() && !ring.desc[ring.used[ring.done]].ie
    modifies ring, ring.desc
    ensures ring.Usable() && ring.InTable() && ring.done == old(ring.done) + 1 && ring.used == old(ring.used)
    ensures ring.autoDrop == old(ring.autoDrop) && ring.nDrop == old(ring.nDrop)
            && ring.received == old(ring.received) + [p]
    ensures forall j | 0 <= j < ring.desc.Length :: ring.desc[j].ie == old(ring.desc[j].ie)
  {
    hide InOrder, Packets;
    AtCursor(ring);
    var stored := ring.Receive(p);
    ListsDistinct(ring.desc[..], ring.used, ring.free, ring.head, ring.done, ring.cursor);
  }

  /** On a ring of five, a session after another one: its first interrupt recycles a descriptor still enabled. */
  method StaleRun(p: Packet, q: Packet) returns (ring: RxRing)
    ensures !ring.Orderly() && ring.received == [p, q]
  {
    hide InOrder, Packets, TotalSize, FlagSet, Sessions.Safe, Sessions.Step;
    ring := new RxRing(5, 0);
    ring.DescAddAll();
    ListsDistinct(ring.desc[..], ring.used, ring.free, ring.head, ring.done, ring.cursor);
    var r := ring.AutoDropEnable(1);
    r := ring.AutoDropDisable();
    r := ring.AutoDropEnable(3);
    RingTurns(ring.desc[..], ring.used, ring.free, ring.head, ring.done, ring.cursor);
    var stored := ring.Receive(p);
    RingTurns(ring.desc[..], ring.used, ring.free, ring.head, ring.done, ring.cursor);
    AtCursor(ring);
    stored := ring.Receive(q);
  }

  /**
   The moves of SpwSession are those of the ring: after any sequence of them a session's ring is out of order exactly
   if the moves say so. So an unsafe state has a continuation that puts the ring out of order.
   */
  method Continue(ring: RxRing, s: Sessions.Drops, moves: seq<Sessions.Move>)
    requires ring.Usable() && ring.autoDrop && |ring.used| == ring.desc.Length && s == ring.Offsets()
    modifies ring, ring.desc
    ensures ring.Orderly() <==> Sessions.Run(Sessions.Orderly(s), moves).Orderly?
    decreases |moves|
  {
    hide InOrder, Packets, TotalSize, FlagSet;
    if moves == [] {
      UsableIsOrderly(ring);
      return;
    }
    match moves[0] {
      case Arrive =>
        var stored := ring.Receive([]);
      case Consume =>
        var dropped := ring.DropPkt();
    }
    var o := Sessions.Step(s, moves[0]);
    if o.Orderly? {
      Continue(ring, o.s, moves[1..]);
    }
  }

  lemma UsableIsOrderly(ring: RxRing)
    requires ring.Usable()
    ensures ring.Orderly()
  {}

  /** A session that starts when the ring is full drops nothing, and the next packet is lost. */
  method FullRun(p: Packet) returns (ring: RxRing, stored: bool)
    ensures ring.autoDrop && ring.nDrop == 2 && !stored && ring.Valid()
  {
    hide InOrder, Packets, TotalSize, FlagSet;
    ring := new RxRing(5, 0);
    ring.DescAddAll();
    NoFlags(ring);
    for i := 0 to 5
      invariant ring.Usable() && !ring.autoDrop && ring.done == i && |ring.used| == 5 && fresh(ring)
      invariant fresh(ring.desc) && ring.desc.Length == 5 && ring.Clean(-1)
    {
      AtCursor(ring);
      stored := ring.Receive(p);
    }
    NoFlags(ring);
    var r := ring.AutoDropEnable(2);
    NoneEnabled(ring);
    stored := ring.Receive(p);
  }

  lemma NoFlags(ring: RxRing)
    requires ring.Clean(-1) && ring.head < ring.desc.Length
    ensures FlagSet(ring.desc[..], ring.head) == {}
  {}

  /** With all descriptors completed the core stands at a disabled one. */
  lemma NoneEnabled(ring: RxRing)
    requires ring.Ring() && ring.done == |ring.used| == ring.desc.Length
    ensures 0 <= ring.cursor < ring.desc.Length && !ring.desc[ring.cursor].en
  {
    CursorInTable(ring.desc[..], ring.used, ring.free, ring.head, ring.done, ring.cursor);
    CursorBusy(ring.desc[..], ring.used, ring.free, ring.head, ring.done, ring.cursor);
  }

  /** A packet of three bytes, four to be stripped: nearly all of the address space is copied. */
  method ShortPacketRun(p: Packet) returns (size: int, copy: Copy)
    requires |p| == 3
    ensures size == 0xFFFF_FFFF && copy == Beyond(0xFFFF_FFFF)
  {
    hide InOrder, Packets;
    var ring := new RxRing(1, 4);
    ring.DescAddAll();
    RingTurns(ring.desc[..], ring.used, ring.free, ring.head, ring.done, ring.cursor);
    AtCursor(ring);
    var stored := ring.Receive(p);
    size, copy := ring.GetPkt(true);
  }

  /** While descriptors are enabled, the core stands at the first of them. */
  lemma AtCursor(ring: RxRing)
    requires ring.Ring() && ring.done < |ring.used|
    ensures 0 <= ring.cursor < ring.desc.Length && ring.desc[ring.cursor].en && ring.cursor == ring.used[ring.done]
  {
    ListsDistinct(ring.desc[..], ring.used, ring.free, ring.head, ring.done, ring.cursor);
  }

  // ---------------------------------------------------------------- transmitting

  datatype TxEvent = Offer(hdr: Packet, data: Packet) | Transmit

  /** The packet `p` is the one offered by event `k`; the size fields hold 8 and 24 bits. */
  ghost predicate OfferedAt(p: TxPacket, events: seq<TxEvent>, k: nat) {
    && k < |events| && events[k].Offer? && p.hdr <= events[k].hdr && p.data <= events[k].data
    && |p.hdr| == |events[k].hdr| % 0x100 && |p.data| == |events[k].data| % 0x100_0000
    && (|events[k].hdr| < 0x100 ==> p.hdr == events[k].hdr)
    && (|events[k].data| < 0x100_0000 ==> p.data == events[k].data)
  }

  /**
   Any interleaving of packets offered and core steps: packets leave in the order they were accepted, and those accepted
   are the ones offered by the events `which`, in order.
   */
  method RunTransmit(n: nat, events: seq<TxEvent>) returns (ring: TxRing, accepted: seq<TxPacket>, which: seq<nat>)
    requires n > 0
    ensures ring.Valid() && ring.accepted == accepted && ring.sent <= accepted
    ensures |accepted| <= |ring.sent| + n && |which| == |accepted|
    ensures forall i | 0 <= i < |which| :: OfferedAt(accepted[i], events, which[i])
    ensures forall i, j | 0 <= i < j < |which| :: which[i] < which[j]
  {
    ring := new TxRing(n);
    accepted, which := [], [];
    for k := 0 to |events|
      invariant ring.Valid() && ring.accepted == accepted && Matching(accepted, which, events, k)
      invariant fresh(ring) && fresh(ring.desc) && ring.desc.Length == n
    {
      hide Matching, OfferedAt;
      ghost var was, whichWas := accepted, which;
      MatchingNext(was, whichWas, events, k);
      match events[k] {
        case Offer(hdr, data) =>
          var ret := ring.DescAddPkt(Buffer(hdr), |hdr|, Buffer(data), |data|);
          if ret == 0 {
            var p := TxPacket(Field(Buffer(hdr), |hdr|, 0x100), Field(Buffer(data), |data|, 0x100_0000));
            Offered(p, events, k);
            MatchingMore(was, whichWas, events, k, p);
            accepted, which := accepted + [p], which + [k];
          }
        case Transmit =>
          var busy := ring.CoreTransmit();
      }
    }
    ListsDistinct(ring.desc[..], ring.used, ring.free, ring.head, ring.done, ring.cursor);
  }

  /** The packets are those offered by the events `which`, which are in order and among the first `k`. */
  ghost predicate Matching(accepted: seq<TxPacket>, which: seq<nat>, events: seq<TxEvent>, k: nat) {
    && |which| == |accepted|
    && (forall i | 0 <= i < |which| :: OfferedAt(accepted[i], events, which[i]) && which[i] < k)
    && forall i, j | 0 <= i < j < |which| :: which[i] < which[j]
  }

  lemma MatchingNext(accepted: seq<TxPacket>, which: seq<nat>, events: seq<TxEvent>, k: nat)
    requires Matching(accepted, which, events, k)
    ensures Matching(accepted, which, events, k + 1)
  {
    hide OfferedAt;
  }

  lemma MatchingMore(accepted: seq<TxPacket>, which: seq<nat>, events: seq<TxEvent>, k: nat, p: TxPacket)
    requires Matching(accepted, which, events, k) && OfferedAt(p, events, k)
    ensures Matching(accepted + [p], which + [k], events, k + 1)
  {
    hide OfferedAt;
  }

  lemma Offered(p: TxPacket, events: seq<TxEvent>, k: nat)
    requires k < |events| && events[k].Offer?
    requires var h, d := events[k].hdr, events[k].data;
             p == TxPacket(Field(Buffer(h), |h|, 0x100), Field(Buffer(d), |d|, 0x100_0000))
    ensures OfferedAt(p, events, k)
  {
    hide Field;
    var h, d := events[k].hdr, events[k].data;
    FieldIs(Buffer(h), |h|, 0x100);
    FieldIs(Buffer(d), |d|, 0x100_0000);
    assert h[..|h|] == h && d[..|d|] == d;
  }
}
