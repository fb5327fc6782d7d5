/**
 Descriptor rings shared by the SpaceWire driver (kernel/grspw2.c) and the DMA core. Descriptors are
 table indices; the driver keeps a used and a free list, the core a cursor into the table. The ring
 steps below are the only ways either side changes the ring.
 */
module SpwRing {
  /** A descriptor: enable, wrap and interrupt bits, and the packet in its buffer. */
  datatype Desc<T> = Desc(en: bool, wrap: bool, ie: bool, pkt: T)

  /** Index `i` places behind `h` in a table of `n`. */
  function At(n: nat, h: nat, i: nat): int { if h + i < n then h + i else h + i - n }

  function Next(n: nat, h: nat): int { At(n, h, 1) }

  /** The table read cyclically from `h` on. */
  function Rotation(n: nat, h: nat): (r: seq<int>)
    ensures |r| == n && forall i | 0 <= i < n :: r[i] == At(n, h, i)
  {
    seq(n, i requires 0 <= i < n => At(n, h, i))
  }

  lemma RotationStep(n: nat, h: nat)
    requires h < n
    ensures Rotation(n, Next(n, h)) == Rotation(n, h)[1..] + [h]
  {}

  /**
   The ring is in order: the used and free lists together are a rotation of the table starting at
   `head`, the first `done` used descriptors are completed and the others enabled, free ones are
   disabled, and the core's cursor stands behind the completed ones.
   */
  ghost predicate InOrder<T>(d: seq<Desc<T>>, used: seq<int>, free: seq<int>, head: nat, done: nat, cursor: int) {
    && 0 < |d| && head < |d| && done <= |used|
    && used + free == Rotation(|d|, head)
    && (forall i | 0 <= i < |used| :: 0 <= used[i] < |d| && (d[used[i]].en <==> i >= done))
    && (forall i | 0 <= i < |free| :: 0 <= free[i] < |d| && !d[free[i]].en)
    && cursor == At(|d|, head, done)
    && (forall i | 0 <= i < |d| - 1 :: !d[i].wrap)
    && (d[|d| - 1].en ==> d[|d| - 1].wrap)
  }

  /** The packets in a run of descriptors. */
  function Packets<T>(d: seq<Desc<T>>, l: seq<int>): (p: seq<T>)
    requires forall i | 0 <= i < |l| :: 0 <= l[i] < |d|
    ensures |p| == |l| && forall i | 0 <= i < |l| :: p[i] == d[l[i]].pkt
  {
    seq(|l|, i requires 0 <= i < |l| && 0 <= l[i] < |d| => d[l[i]].pkt)
  }

  /** Members of the lists are pairwise different. */
  lemma ListsDistinct<T>(d: seq<Desc<T>>, used: seq<int>, free: seq<int>, head: nat, done: nat, cursor: int)
    requires InOrder(d, used, free, head, done, cursor)
    ensures |used| + |free| == |d| && done <= |used| && head < |d|
    ensures forall i | 0 <= i < |used| :: 0 <= used[i] < |d|
    ensures forall i | 0 <= i < |free| :: 0 <= free[i] < |d|
    ensures forall i | 0 <= i < |used| :: used[i] == At(|d|, head, i)
    ensures forall i | 0 <= i < |free| :: free[i] == At(|d|, head, |used| + i)
  {
    var all := used + free;
    forall i | 0 <= i < |used| ensures used[i] == At(|d|, head, i) { assert all[i] == used[i]; }
    forall i | 0 <= i < |free| ensures free[i] == At(|d|, head, |used| + i) { assert all[|used| + i] == free[i]; }
  }

  // ---------------------------------------------------------------- driver steps

  /** Enable a descriptor; the last one of the table gets the wrap bit. */
  function Armed<T>(d: seq<Desc<T>>, x: int, p: T): seq<Desc<T>>
    requires 0 <= x < |d|
  {
    d[x := Desc(true, d[x].wrap || x == |d| - 1, d[x].ie, p)]
  }

  /** Enabling the first free descriptor and moving it behind the used ones. */
  lemma {:induction false} ArmStep<T>(d: seq<Desc<T>>, used: seq<int>, free: seq<int>, head: nat, done: nat,
                                      cursor: int, p: T)
    requires InOrder(d, used, free, head, done, cursor) && free != []
    ensures var d' := Armed(d, free[0], p); var used' := used + [free[0]];
            && InOrder(d', used', free[1..], head, done, cursor)
            && Packets(d', used'[..done]) == Packets(d, used[..done])
            && Packets(d', used'[done..]) == Packets(d, used[done..]) + [p]
  {
    ListsDistinct(d, used, free, head, done, cursor);
    var d', used' := Armed(d, free[0], p), used + [free[0]];
    assert used' + free[1..] == used + free;
    forall i | 0 <= i < |used| ensures d'[used'[i]] == d[used[i]] {}
    forall i | 0 <= i < |free[1..]| ensures !d'[free[1..][i]].en { assert free[1..][i] == free[i + 1]; }
    assert Packets(d', used'[..done]) == Packets(d, used[..done]);
  }

  /** Moving the first used descriptor, completed, behind the free ones. */
  lemma {:induction false} ReleaseStep<T>(d: seq<Desc<T>>, used: seq<int>, free: seq<int>, head: nat, done: nat,
                                          cursor: int)
    requires InOrder(d, used, free, head, done, cursor) && done > 0
    ensures used != [] && head < |d| && done <= |used| && forall i | 0 <= i < |used| :: 0 <= used[i] < |d|
    ensures used[0] == head && InOrder(d, used[1..], free + [used[0]], Next(|d|, head), done - 1, cursor)
    ensures Packets(d, used[..done]) == [d[head].pkt] + Packets(d, used[1..][..done - 1])
    ensures Packets(d, used[done..]) == Packets(d, used[1..][done - 1..])
  {
    ListsDistinct(d, used, free, head, done, cursor);
    RotationStep(|d|, head);
    hide Rotation, Packets;
    var used', free' := used[1..], free + [used[0]];
    assert used' + free' == (used + free)[1..] + [head];
    assert used[1..][..done - 1] == used[1..done] && used[1..][done - 1..] == used[done..];
  }

  /** The head of the used list is completed exactly when something is. */
  lemma HeadDone<T>(d: seq<Desc<T>>, used: seq<int>, free: seq<int>, head: nat, done: nat, cursor: int)
    requires InOrder(d, used, free, head, done, cursor) && used != []
    ensures used[0] == head < |d| && (d[used[0]].en <==> done == 0) && done <= |used|
  {
    ListsDistinct(d, used, free, head, done, cursor);
  }

  // ---------------------------------------------------------------- core step

  /** The core completes the descriptor at the cursor. */
  function Completed<T>(d: seq<Desc<T>>, x: int, p: T): seq<Desc<T>>
    requires 0 <= x < |d|
  {
    d[x := d[x].(en := false, pkt := p)]
  }

  function Advance<T>(d: seq<Desc<T>>, x: int): int
    requires 0 <= x < |d|
  {
    if d[x].wrap then 0 else x + 1
  }

  /** The core takes the descriptors in the order of the used list. */
  lemma {:induction false} CompleteStep<T>(d: seq<Desc<T>>, used: seq<int>, free: seq<int>, head: nat, done: nat,
                                           cursor: int, p: T)
    requires InOrder(d, used, free, head, done, cursor) && 0 <= cursor < |d| && d[cursor].en
    ensures done < |used| && cursor == used[done]
    ensures InOrder(Completed(d, cursor, p), used, free, head, done + 1, Advance(d, cursor))
    ensures Packets(Completed(d, cursor, p), used[..done + 1]) == Packets(d, used[..done]) + [p]
    ensures Packets(d, used[done..]) == [d[cursor].pkt] + Packets(Completed(d, cursor, p), used[done + 1..])
  {
    hide Packets, Rotation;
    ListsDistinct(d, used, free, head, done, cursor);
    assert free != [] ==> free[0] == At(|d|, head, |used|) && !d[free[0]].en;
    assert used != [] ==> used[0] == head;
    assert done < |used|;
    CompletedPackets(d, used, done, cursor, p);
  }

  lemma CompletedPackets<T>(d: seq<Desc<T>>, used: seq<int>, done: nat, x: int, p: T)
    requires done < |used| && x == used[done] && forall i | 0 <= i < |used| :: 0 <= used[i] < |d|
    requires forall i | 0 <= i < |used| && i != done :: used[i] != x
    ensures Packets(Completed(d, x, p), used[..done + 1]) == Packets(d, used[..done]) + [p]
    ensures Packets(d, used[done..]) == [d[x].pkt] + Packets(Completed(d, x, p), used[done + 1..])
  {}

  lemma CursorInTable<T>(d: seq<Desc<T>>, used: seq<int>, free: seq<int>, head: nat, done: nat, cursor: int)
    requires InOrder(d, used, free, head, done, cursor)
    ensures 0 <= cursor < |d|
  {
    ListsDistinct(d, used, free, head, done, cursor);
  }
}
