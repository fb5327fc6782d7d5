/**
 The round-robin scheduler of kernel/sched/rr.c. The run queue is shared by all CPUs and is rearranged while
 rr_pick_next walks it.
 */
module RoundRobin {
  import opened KernelList

  const NONE: int := -1       // KTHREAD_CPU_AFFINITY_NONE
  const EINVAL: int := 22

  datatype State = Run | Idle | New | Dead | Busy

  datatype Task = Task(id: nat, onCpu: int, state: State, runtime: int, wcet: int, priority: nat)

  /** Waiting to run, and allowed to on this CPU. */
  predicate Eligible(t: Task, cpu: int) { (t.onCpu == cpu || t.onCpu == NONE) && t.state == Run }

  predicate Fresh(t: Task, cpu: int, tick: int) { Eligible(t, cpu) && t.runtime > tick }

  predicate Spent(t: Task, cpu: int, tick: int) { Eligible(t, cpu) && t.runtime <= tick }

  predicate Buried(t: Task, cpu: int) { t.onCpu == cpu && t.state == Dead }

  function Reset(t: Task): Task { t.(runtime := t.wcet) }

  /** Tasks a walk leaves where they are, sends to the end of the queue, and takes to the dead list. */
  function Kept(l: seq<Task>, cpu: int, tick: int): seq<Task> {
    if l == [] then [] else
      var t := l[|l| - 1];
      Kept(l[..|l| - 1], cpu, tick) + (if Spent(t, cpu, tick) || Buried(t, cpu) then [] else [t])
  }

  function Renewed(l: seq<Task>, cpu: int, tick: int): seq<Task> {
    if l == [] then [] else
      Renewed(l[..|l| - 1], cpu, tick) + (if Spent(l[|l| - 1], cpu, tick) then [Reset(l[|l| - 1])] else [])
  }

  function Graves(l: seq<Task>, cpu: int): seq<Task> {
    if l == [] then [] else Graves(l[..|l| - 1], cpu) + (if Buried(l[|l| - 1], cpu) then [l[|l| - 1]] else [])
  }

  function Ids(l: seq<Task>): (ids: seq<nat>)
    ensures |ids| == |l| && forall i | 0 <= i < |l| :: ids[i] == l[i].id
  {
    seq(|l|, i requires 0 <= i < |l| => l[i].id)
  }

  lemma IdsConcat(a: seq<Task>, b: seq<Task>)
    ensures Ids(a + b) == Ids(a) + Ids(b)
  {}

  ghost predicate Long(l: seq<Task>, tick: int) {
    forall i | 0 <= i < |l| :: l[i].state == Run || l[i].state == Busy ==> l[i].wcet > tick
  }

  /** No entry is queued twice, and a task that is given its time again has more than a reset needs. */
  ghost predicate QueueOk(l: seq<Task>, tick: int) {
    NoRepeat(Ids(l)) && Long(l, tick)
  }

  // ---------------------------------------------------------------- the walk

  /** What is still ahead when `k` entries of the original queue have been visited. */
  function Ahead(l: seq<Task>, k: nat, cpu: int, tick: int): seq<Task>
    requires k <= |l|
  {
    l[k..] + Renewed(l[..k], cpu, tick)
  }

  function Walked(l: seq<Task>, k: nat, cpu: int, tick: int): seq<Task>
    requires k <= |l|
  {
    Kept(l[..k], cpu, tick) + Ahead(l, k, cpu, tick)
  }

  lemma OneMore(l: seq<Task>, k: nat, cpu: int, tick: int)
    requires k < |l|
    ensures var t := l[k];
            && Kept(l[..k + 1], cpu, tick) ==
                 Kept(l[..k], cpu, tick) + (if Spent(t, cpu, tick) || Buried(t, cpu) then [] else [t])
            && Renewed(l[..k + 1], cpu, tick) ==
                 Renewed(l[..k], cpu, tick) + (if Spent(t, cpu, tick) then [Reset(t)] else [])
            && Graves(l[..k + 1], cpu) == Graves(l[..k], cpu) + (if Buried(t, cpu) then [t] else [])
  {
    assert l[..k + 1][..k] == l[..k];
  }

  /** The queue without the entry at `i`, which goes to the end or to another list. */
  function Out(q: seq<Task>, i: nat): seq<Task>
    requires i < |q|
  {
    q[..i] + q[i + 1..]
  }

  /** Visiting one more entry, by what it is. */
  lemma {:induction false} WalkStep(l: seq<Task>, k: nat, cpu: int, tick: int)
    requires k < |l|
    ensures var q := Walked(l, k, cpu, tick); var i := |Kept(l[..k], cpu, tick)|; var t := l[k];
            && i < |q| && q[i] == t
            && Walked(l, k + 1, cpu, tick) == if Spent(t, cpu, tick) then Out(q, i) + [Reset(t)]
                                              else if Buried(t, cpu) then Out(q, i) else q
  {
    hide Kept, Renewed, Spent, Buried;
    var a, b, r, t := Kept(l[..k], cpu, tick), l[k + 1..], Renewed(l[..k], cpu, tick), l[k];
    OneMore(l, k, cpu, tick);
    assert l[k..] == [t] + b;
    Pieces(a, t, b, r, Reset(t));
    SpentOrBuried(t, cpu, tick);
    assert r + [] == r && a + [] == a;
    hide Out;
  }

  lemma {:induction false} Pieces(a: seq<Task>, t: Task, b: seq<Task>, r: seq<Task>, u: Task)
    ensures var q := a + (([t] + b) + r);
            && q[|a|] == t && Out(q, |a|) == a + (b + r) && (a + [t]) + (b + r) == q
            && (a + (b + r)) + [u] == a + (b + (r + [u]))
  {}

  lemma SpentOrBuried(t: Task, cpu: int, tick: int)
    ensures !(Spent(t, cpu, tick) && Buried(t, cpu))
  {}

  /** Taking an entry out, and linking it again at the end, keeps the entries distinct. */
  lemma {:induction false} OutDistinct(q: seq<Task>, i: nat, t: Task)
    requires NoRepeat(Ids(q)) && i < |q| && t.id == q[i].id
    ensures NoRepeat(Ids(Out(q, i))) && NoRepeat(Ids(Out(q, i) + [t]))
    ensures multiset(Ids(Out(q, i) + [t])) == multiset(Ids(q)) == multiset(Ids(Out(q, i))) + multiset{t.id}
  {
    OutApart(q, i, t);
    var a, b := q[..i], q[i + 1..];
    assert q == a + ([q[i]] + b);
    IdsConcat(a, [q[i]] + b);
    IdsConcat([q[i]], b);
    IdsConcat(a, b);
    IdsConcat(a + b, [t]);
    assert Ids([q[i]]) == [t.id] && Ids([t]) == [t.id];
  }

  lemma OutApart(q: seq<Task>, i: nat, t: Task)
    requires NoRepeat(Ids(q)) && i < |q| && t.id == q[i].id
    ensures NoRepeat(Ids(Out(q, i))) && NoRepeat(Ids(Out(q, i) + [t]))
  {
    var r := Out(q, i);
    assert forall j | 0 <= j < |r| :: r[j] == q[if j < i then j else j + 1];
  }

  /** The walk has come past the first `k` entries and none of them could run on. */
  ghost predicate Walking(l: seq<Task>, k: nat, cpu: int, tick: int, q: seq<Task>, next: int, pos: int, nxt: int) {
    && k <= |l| && q == Walked(l, k, cpu, tick) && NoRepeat(Ids(q))
    && multiset(Ids(q)) + multiset(Ids(Graves(l[..k], cpu))) == multiset(Ids(l))
    && (forall i | 0 <= i < k :: !Fresh(l[i], cpu, tick))
    && next == LastId(Renewed(l[..k], cpu, tick))
    && var ahead := Ids(Ahead(l, k, cpu, tick));
       (pos == IdOf(ahead, 0) || (pos == HEAD && k == |l| && |ahead| == 1)) && (pos != HEAD ==> nxt == IdOf(ahead, 1))
  }

  function LastId(l: seq<Task>): int { if l == [] then HEAD else l[|l| - 1].id }

  lemma NoneWalked(l: seq<Task>, cpu: int, tick: int)
    ensures Ahead(l, 0, cpu, tick) == l && Walked(l, 0, cpu, tick) == l
    ensures Renewed(l[..0], cpu, tick) == [] && Ids(Graves(l[..0], cpu)) == []
  {
    assert l[..0] == [];
    assert Kept([], cpu, tick) == [] && Renewed([], cpu, tick) == [] && Graves([], cpu) == [];
  }

  lemma {:induction false} WalkStart(l: seq<Task>, cpu: int, tick: int)
    requires QueueOk(l, tick)
    ensures Walking(l, 0, cpu, tick, l, HEAD, IdOf(Ids(l), 0), After(Ids(l), IdOf(Ids(l), 0)))
  {
    NoneWalked(l, cpu, tick);
    hide Kept, Renewed, Graves, Ahead, Walked, Fresh;
    if l != [] {
      AfterAt(Ids(l), 0);
    }
  }

  /** The entry that the walk is at. */
  lemma WalkAt(l: seq<Task>, k: nat, cpu: int, tick: int, q: seq<Task>, next: int, pos: int, nxt: int)
    requires Walking(l, k, cpu, tick, q, next, pos, nxt) && pos != HEAD && QueueOk(l, tick)
    ensures IndexIn(Ids(q), pos) == |Kept(l[..k], cpu, tick)| < |q|
    ensures var t := q[IndexIn(Ids(q), pos)]; if k < |l| then t == l[k] else Fresh(t, cpu, tick)
  {
    hide Kept, Renewed, Graves;
    AheadIsFresh(l, k, cpu, tick);
    var i := |Kept(l[..k], cpu, tick)|;
    assert q[i] == Ahead(l, k, cpu, tick)[0];
    IndexInAt(Ids(q), i);
  }

  /** The queue after a visit. */
  function Visit(q: seq<Task>, i: nat, cpu: int, tick: int): seq<Task>
    requires i < |q|
  {
    if Spent(q[i], cpu, tick) then Out(q, i) + [Reset(q[i])] else if Buried(q[i], cpu) then Out(q, i) else q
  }

  lemma {:induction false} WalkOn(l: seq<Task>, k: nat, cpu: int, tick: int, q: seq<Task>, next: int, pos: int,
                                  nxt: int)
    requires Walking(l, k, cpu, tick, q, next, pos, nxt) && pos != HEAD && k < |l| && !Fresh(l[k], cpu, tick)
    requires QueueOk(l, tick)
    ensures IndexIn(Ids(q), pos) < |q|
    ensures var q' := Visit(q, IndexIn(Ids(q), pos), cpu, tick);
            Walking(l, k + 1, cpu, tick, q', if Spent(l[k], cpu, tick) then pos else next, nxt, After(Ids(q'), nxt))
  {
    hide Kept, Renewed, Graves, Spent, Buried, Fresh, Walked, Ahead, Visit;
    WalkAt(l, k, cpu, tick, q, next, pos, nxt);
    var i := IndexIn(Ids(q), pos);
    var q' := Visit(q, i, cpu, tick);
    VisitQueue(l, k, cpu, tick, q, i);
    VisitBags(l, k, cpu, tick, q, i);
    VisitNext(l, k, cpu, tick, next);
    AheadStep(l, k, cpu, tick);
    PointStep(l, k, cpu, tick, nxt);
    AheadNext(l, k + 1, cpu, tick, q');
  }

  lemma {:induction false} VisitQueue(l: seq<Task>, k: nat, cpu: int, tick: int, q: seq<Task>, i: nat)
    requires k < |l| && q == Walked(l, k, cpu, tick) && NoRepeat(Ids(q)) && i == |Kept(l[..k], cpu, tick)| < |q|
    ensures Visit(q, i, cpu, tick) == Walked(l, k + 1, cpu, tick) && NoRepeat(Ids(Visit(q, i, cpu, tick)))
  {
    hide Kept, Renewed, Spent, Buried, Walked, Out;
    WalkStep(l, k, cpu, tick);
    OutApart(q, i, Reset(q[i]));
  }

  lemma VisitNext(l: seq<Task>, k: nat, cpu: int, tick: int, next: int)
    requires k < |l| && next == LastId(Renewed(l[..k], cpu, tick))
    ensures LastId(Renewed(l[..k + 1], cpu, tick)) == if Spent(l[k], cpu, tick) then l[k].id else next
  {
    hide Kept, Renewed, Spent, Buried;
    OneMore(l, k, cpu, tick);
  }

  /** The saved successor is the next entry. */
  lemma PointStep(l: seq<Task>, k: nat, cpu: int, tick: int, nxt: int)
    requires k < |l| && nxt == IdOf(Ids(Ahead(l, k, cpu, tick)), 1)
    ensures var b := Ids(Ahead(l, k + 1, cpu, tick));
            && (nxt == IdOf(b, 0) || (nxt == HEAD && k + 1 == |l| && |b| == 1))
            && (nxt != HEAD ==> b != [] && b[0] == nxt)
  {
    hide Kept, Renewed, Spent;
    AheadStep(l, k, cpu, tick);
    var a, b := Ahead(l, k, cpu, tick), Ahead(l, k + 1, cpu, tick);
    assert |a| >= |l| - k;
    assert |a| > 1 ==> b[0] == a[1];
  }

  lemma VisitBags(l: seq<Task>, k: nat, cpu: int, tick: int, q: seq<Task>, i: nat)
    requires k < |l| && i < |q| && q[i] == l[k] && NoRepeat(Ids(q))
    requires multiset(Ids(q)) + multiset(Ids(Graves(l[..k], cpu))) == multiset(Ids(l))
    ensures multiset(Ids(Visit(q, i, cpu, tick))) + multiset(Ids(Graves(l[..k + 1], cpu))) == multiset(Ids(l))
  {
    hide Graves, Spent, Buried, Kept, Renewed;
    OneMore(l, k, cpu, tick);
    SpentOrBuried(l[k], cpu, tick);
    OutDistinct(q, i, Reset(q[i]));
    IdsConcat(Graves(l[..k], cpu), [l[k]]);
    assert Ids([l[k]]) == [l[k].id];
    assert Graves(l[..k], cpu) + [] == Graves(l[..k], cpu);
  }

  /** What was second is next, unless the entry was alone and went to the end of the queue again. */
  lemma AheadStep(l: seq<Task>, k: nat, cpu: int, tick: int)
    requires k < |l|
    ensures var a, b := Ahead(l, k, cpu, tick), Ahead(l, k + 1, cpu, tick);
            && |a| > 0 && a[0] == l[k]
            && b == a[1..] + (if Spent(l[k], cpu, tick) then [Reset(l[k])] else [])
  {
    hide Kept, Renewed, Spent;
    OneMore(l, k, cpu, tick);
  }

  lemma AheadNext(l: seq<Task>, k: nat, cpu: int, tick: int, q: seq<Task>)
    requires k <= |l| && q == Walked(l, k, cpu, tick) && NoRepeat(Ids(q))
    ensures var a := Ids(Ahead(l, k, cpu, tick)); a != [] ==> After(Ids(q), a[0]) == IdOf(a, 1)
  {
    hide Kept, Renewed;
    var i, a := |Kept(l[..k], cpu, tick)|, Ahead(l, k, cpu, tick);
    if a != [] {
      assert q[i] == a[0];
      assert forall j | 0 <= j < |a| :: q[i + j] == a[j];
      AfterAt(Ids(q), i);
    }
  }

  /** The walk is over: the pick is the first entry ahead. */
  ghost predicate PickedAt(l: seq<Task>, k: nat, cpu: int, tick: int, q: seq<Task>, next: int) {
    && k <= |l| && (forall i | 0 <= i < k :: !Fresh(l[i], cpu, tick)) && (k < |l| ==> Fresh(l[k], cpu, tick))
    && var a := Ahead(l, k, cpu, tick);
       && next == IdOf(Ids(a), 0)
       && q == Kept(l[..k], cpu, tick) + if a == [] then [] else [a[0].(state := Busy)] + a[1..]
  }

  /** A walk that ran into the list head. */
  lemma WalkEnd(l: seq<Task>, k: nat, cpu: int, tick: int, q: seq<Task>, next: int, nxt: int)
    requires Walking(l, k, cpu, tick, q, next, HEAD, nxt)
    ensures k == |l| && next == IdOf(Ids(Ahead(l, k, cpu, tick)), 0)
  {
    hide Kept, Renewed, Graves;
    var a := Ahead(l, k, cpu, tick);
    assert k < |l| ==> IdOf(Ids(a), 0) != HEAD;
    assert k == |l|;
    assert l[k..] == [];
    assert a == Renewed(l[..k], cpu, tick);
  }

  /** Dead tasks of this CPU are buried, its tasks without time left are renewed, and all others stay as they are. */
  lemma {:induction false} WalkParts(l: seq<Task>, cpu: int, tick: int, t: Task)
    ensures t in Graves(l, cpu) <==> t in l && t.state == Dead && t.onCpu == cpu
    ensures t in Renewed(l, cpu, tick) <==>
              exists s :: s in l && s.state == Run && (s.onCpu == cpu || s.onCpu == NONE) && s.runtime <= tick
                          && t == s.(runtime := s.wcet)
    ensures t in Kept(l, cpu, tick) <==>
              t in l && !(t.state == Dead && t.onCpu == cpu)
              && !(t.state == Run && (t.onCpu == cpu || t.onCpu == NONE) && t.runtime <= tick)
  {
    if l != [] {
      var m, x := l[..|l| - 1], l[|l| - 1];
      WalkParts(m, cpu, tick, t);
      assert l == m + [x];
    }
  }

  /** A renewed task has time again. */
  lemma {:induction false} RenewedFresh(l: seq<Task>, cpu: int, tick: int)
    requires Long(l, tick)
    ensures forall i | 0 <= i < |Renewed(l, cpu, tick)| :: Fresh(Renewed(l, cpu, tick)[i], cpu, tick)
  {
    if l != [] {
      RenewedFresh(l[..|l| - 1], cpu, tick);
    }
  }

  lemma {:induction false} RenewedEmpty(l: seq<Task>, cpu: int, tick: int)
    ensures Renewed(l, cpu, tick) == [] <==> forall i | 0 <= i < |l| :: !Spent(l[i], cpu, tick)
  {
    if l != [] {
      RenewedEmpty(l[..|l| - 1], cpu, tick);
    }
  }

  /** Nothing is picked exactly when no task may run. */
  lemma NothingPicked(l: seq<Task>, k: nat, cpu: int, tick: int, q: seq<Task>, next: int)
    requires PickedAt(l, k, cpu, tick, q, next)
    ensures next == HEAD <==>
              forall i | 0 <= i < |l| :: l[i].state != Run || (l[i].onCpu != cpu && l[i].onCpu != NONE)
  {
    RenewedEmpty(l[..k], cpu, tick);
    if k < |l| {
      assert Ahead(l, k, cpu, tick)[0] == l[k];
    } else {
      assert l[..k] == l && l[k..] == [];
    }
  }

  /**
   A pick with time left stands where it stood, marked busy; what was behind it is still behind it, followed by the
   tasks that were renewed on the way, in order, and before it are those that were kept.
   */
  lemma PickedShape(l: seq<Task>, k: nat, cpu: int, tick: int, q: seq<Task>, next: int)
      returns (kept: seq<Task>, renewed: seq<Task>)
    requires PickedAt(l, k, cpu, tick, q, next) && k < |l|
    ensures q == kept + [l[k].(state := Busy)] + l[k + 1..] + renewed && next == l[k].id
    ensures forall t :: t in kept <==>
              t in l[..k] && !(t.state == Dead && t.onCpu == cpu)
              && !(t.state == Run && (t.onCpu == cpu || t.onCpu == NONE) && t.runtime <= tick)
    ensures forall t :: t in renewed <==>
              exists s :: s in l[..k] && s.state == Run && (s.onCpu == cpu || s.onCpu == NONE) && s.runtime <= tick
                          && t == s.(runtime := s.wcet)
  {
    hide Kept, Renewed;
    kept, renewed := Kept(l[..k], cpu, tick), Renewed(l[..k], cpu, tick);
    assert l[k..] == [l[k]] + l[k + 1..];
    assert Ahead(l, k, cpu, tick)[1..] == l[k + 1..] + renewed;
    forall t
      ensures t in kept <==>
                t in l[..k] && !(t.state == Dead && t.onCpu == cpu)
                && !(t.state == Run && (t.onCpu == cpu || t.onCpu == NONE) && t.runtime <= tick)
    {
      WalkParts(l[..k], cpu, tick, t);
    }
    forall t
      ensures t in renewed <==>
                exists s :: s in l[..k] && s.state == Run && (s.onCpu == cpu || s.onCpu == NONE) && s.runtime <= tick
                            && t == s.(runtime := s.wcet)
    {
      WalkParts(l[..k], cpu, tick, t);
    }
  }

  /** A task with time left goes before every task that has used its time up. */
  lemma FirstFreshPicked(l: seq<Task>, k: nat, cpu: int, tick: int, q: seq<Task>, next: int, i: nat)
    requires PickedAt(l, k, cpu, tick, q, next) && i < |l| && Fresh(l[i], cpu, tick)
    ensures k <= i && Fresh(l[k], cpu, tick) && next == l[k].id && forall j | 0 <= j < k :: !Fresh(l[j], cpu, tick)
  {
    assert Ahead(l, k, cpu, tick)[0] == l[k];
  }

  /** A task as rr_wake sets it up: its slice is a multiple of 16 minimum ticks. */
  function Awake(t: Task, tickMin: int): Task {
    t.(wcet := t.priority * (16 * tickMin), runtime := t.priority * (16 * tickMin), state := Run)
  }

  /** A task that comes back from its CPU after some time. */
  function Returned(t: Task, used: int): Task {
    t.(runtime := t.runtime - used, state := if t.state == Busy then Run else t.state)
  }

  lemma ReturnKeeps(l: seq<Task>, i: nat, used: int, tick: int, wake: seq<Task>)
    requires QueueOk(l, tick) && i < |l| && forall r, w | r in l && w in wake :: r.id != w.id
    ensures var m := l[i := Returned(l[i], used)];
            QueueOk(m, tick) && Ids(m) == Ids(l) && forall r, w | r in m && w in wake :: r.id != w.id
    ensures forall j | 0 <= j < |l| :: l[j].id == l[i].id ==> j == i
  {
    var m := l[i := Returned(l[i], used)];
    forall r, w | r in m && w in wake ensures r.id != w.id {
      var j :| 0 <= j < |m| && m[j] == r;
      assert l[j] in l && l[j].id == r.id;
    }
    forall j | 0 <= j < |l| && l[j].id == l[i].id ensures j == i {
      assert Ids(l)[j] == Ids(l)[i];
    }
  }

  class Scheduler {
    const tickMin: int  // tick_get_period_min_ns, the same on every CPU
    var run: seq<Task>
    var wake: seq<Task>
    var dead: seq<Task>

    ghost predicate Valid()
      reads this
    {
      && tickMin > 0 && QueueOk(run, 2 * tickMin) && NoRepeat(Ids(wake))
      && (forall t | t in wake :: t.priority >= 1) && (forall r, w | r in run && w in wake :: r.id != w.id)
    }

    constructor (tick: int)
      requires tick > 0
      ensures Valid() && run == [] && wake == [] && dead == [] && tickMin == tick
    {
      tickMin, run, wake, dead := tick, [], [], [];
    }

    /** rr_check_sched_attr and rr_enqueue. */
    method Enqueue(task: Task)
      requires Valid() && forall t | t in run + wake :: t.id != task.id
      modifies this`wake
      ensures Valid() && |wake| == |old(wake)| + 1 && wake[..|old(wake)|] == old(wake)
      ensures wake[|old(wake)|] == task.(priority := if task.priority == 0 then 1 else task.priority)
    {
      var t := task;
      if t.priority == 0 {
        t := t.(priority := 1);
      }
      wake := wake + [t];
    }

    /** rr_wake: the woken task is put before all others, with a full time slice. */
    method Wake(id: nat) returns (r: int)
      requires Valid()
      modifies this`run, this`wake
      ensures Valid() && r == if id in Ids(old(wake)) then 0 else -EINVAL
      ensures r != 0 ==> run == old(run) && wake == old(wake)
      ensures r == 0 ==> run != [] && run[1..] == old(run)
      ensures r == 0 ==> exists t :: t in old(wake) && t.id == id && run[0] == Awake(t, tickMin)
      ensures r == 0 ==> run[0].id == id && run[0].state == Run && run[0].runtime == run[0].wcet
      ensures r == 0 ==> run[0].wcet == run[0].priority * 16 * tickMin && run[0].wcet > 2 * tickMin
      ensures r == 0 ==> multiset(Ids(run)) + multiset(Ids(wake)) == multiset(Ids(old(run))) + multiset(Ids(old(wake)))
    {
      hide Out, QueueOk, NoRepeat;
      var i := 0;
      while i < |wake| && wake[i].id != id
        invariant 0 <= i <= |wake| && forall j | 0 <= j < i :: wake[j].id != id
      {
        i := i + 1;
      }
      if i == |wake| {
        return -EINVAL;
      }
      assert Ids(wake)[i] == id;
      var t := Awake(wake[i], tickMin);
      LongSlice(wake[i].priority, tickMin);
      WakeStep(run, wake, i, t, 2 * tickMin);
      run := [t] + run;
      wake := Out(wake, i);
      return 0;
    }

    /** sched_update_runtime of a task in the run queue: the time used is subtracted, a busy task may run again. */
    method UpdateRuntime(id: nat, used: int)
      requires Valid() && id in Ids(run)
      modifies this`run
      ensures Valid() && |run| == |old(run)| && Ids(run) == Ids(old(run))
      ensures forall i | 0 <= i < |run| ::
                run[i] == if run[i].id == id then Returned(old(run)[i], used) else old(run)[i]
      ensures forall i | 0 <= i < |run| && run[i].id == id ::
                && run[i].runtime == old(run)[i].runtime - used
                && run[i].state == (if old(run)[i].state == Busy then Run else old(run)[i].state)
    {
      var i := IndexIn(Ids(run), id);
      ghost var k :| 0 <= k < |run| && Ids(run)[k] == id;
      IndexInAt(Ids(run), k);
      ReturnKeeps(run, i, used, 2 * tickMin, wake);
      run := run[i := Returned(run[i], used)];
    }

    /** rr_pick_next. */
    method PickNext(cpu: int) returns (next: int, ghost k: nat)
      requires Valid()
      modifies this`run, this`dead
      ensures Valid() && PickedAt(old(run), k, cpu, 2 * tickMin, run, next)
      ensures dead == old(dead) + Graves(old(run)[..k], cpu)
      ensures multiset(Ids(run)) + multiset(Ids(Graves(old(run)[..k], cpu))) == multiset(Ids(old(run)))
    {
      hide Walking, Visit, Graves, PickedAt, QueueOk, IndexIn, Kept, After, NoRepeat;
      ghost var l := run;
      k := 0;
      next := HEAD;
      var tick := 2 * tickMin;
      var pos := IdOf(Ids(run), 0);
      var nxt := After(Ids(run), pos);
      WalkStart(l, cpu, tick);
      NoGraves(l, cpu);
      while pos != HEAD
        invariant k <= |l| && Walking(l, k, cpu, tick, run, next, pos, nxt)
        invariant dead == old(dead) + Graves(l[..k], cpu)
        decreases |l| - k, if pos == HEAD then 0 else 1
      {
        WalkAt(l, k, cpu, tick, run, next, pos, nxt);
        var i := IndexIn(Ids(run), pos);
        var tsk := run[i];
        if Fresh(tsk, cpu, tick) {
          next := pos;
          break;
        }
        WalkOn(l, k, cpu, tick, run, next, pos, nxt);
        MoreGraves(l, k, cpu, tick);
        if Spent(tsk, cpu, tick) {
          next := pos;
        } else if Buried(tsk, cpu) {
          dead := dead + [tsk];
        }
        run := Visit(run, i, cpu, tick);
        pos := nxt;
        nxt := After(Ids(run), nxt);
        k := k + 1;
      }
      WalkOver(l, k, cpu, tick, run, next, pos, nxt);
      if next != HEAD {
        var i := IndexIn(Ids(run), next);
        run := run[i := run[i].(state := Busy)];
      }
      StillApart(l, k, cpu, run, wake);
    }
  }

  /** Both ways out of the walk leave a pick, or none, at the head of what is ahead. */
  lemma {:induction false} WalkOver(l: seq<Task>, k: nat, cpu: int, tick: int, q: seq<Task>, next: int, pos: int,
                                    nxt: int)
    requires QueueOk(l, tick)
    requires if pos == HEAD then Walking(l, k, cpu, tick, q, next, pos, nxt) else
               exists n :: Walking(l, k, cpu, tick, q, n, pos, nxt) && next == pos
                           && (k < |l| ==> Fresh(l[k], cpu, tick))
    ensures next != HEAD ==> IndexIn(Ids(q), next) < |q|
    ensures var i := IndexIn(Ids(q), next); var q' := if next == HEAD then q else q[i := q[i].(state := Busy)];
            && PickedAt(l, k, cpu, tick, q', next) && QueueOk(q', tick)
            && multiset(Ids(q')) + multiset(Ids(Graves(l[..k], cpu))) == multiset(Ids(l))
  {
    hide Kept, Renewed, Graves, Long, Ids, NoRepeat;
    if pos == HEAD {
      WalkEnd(l, k, cpu, tick, q, next, nxt);
    }
    var a := Ahead(l, k, cpu, tick);
    WalkedLong(l, k, cpu, tick);
    AheadIsFresh(l, k, cpu, tick);
    if a != [] {
      assert k < |l| ==> a[0] == l[k];
      MarkBusy(Kept(l[..k], cpu, tick), a, q, tick);
    }
  }

  lemma MarkBusy(p: seq<Task>, a: seq<Task>, q: seq<Task>, tick: int)
    requires a != [] && q == p + a && NoRepeat(Ids(q)) && Long(q, tick) && a[0].state == Run
    ensures IndexIn(Ids(q), a[0].id) == |p|
    ensures var q' := q[|p| := q[|p|].(state := Busy)];
            q' == p + ([a[0].(state := Busy)] + a[1..]) && Ids(q') == Ids(q) && Long(q', tick)
  {
    assert q[|p|] == a[0];
    IndexInAt(Ids(q), |p|);
  }

  lemma {:induction false} PartsLong(l: seq<Task>, cpu: int, tick: int)
    requires Long(l, tick)
    ensures Long(Kept(l, cpu, tick), tick) && Long(Renewed(l, cpu, tick), tick)
  {
    if l != [] {
      PartsLong(l[..|l| - 1], cpu, tick);
    }
  }

  lemma WalkedLong(l: seq<Task>, k: nat, cpu: int, tick: int)
    requires Long(l, tick) && k <= |l|
    ensures Long(Walked(l, k, cpu, tick), tick)
  {
    hide Kept, Renewed;
    PartsLong(l[..k], cpu, tick);
  }

  /** Tasks that left the run queue are no danger to the wake list. */
  lemma StillApart(l: seq<Task>, k: nat, cpu: int, q: seq<Task>, wake: seq<Task>)
    requires k <= |l| && multiset(Ids(q)) + multiset(Ids(Graves(l[..k], cpu))) == multiset(Ids(l))
    requires forall r, w | r in l && w in wake :: r.id != w.id
    ensures forall r, w | r in q && w in wake :: r.id != w.id
  {
    forall r, w | r in q && w in wake ensures r.id != w.id {
      var j :| 0 <= j < |q| && q[j] == r;
      assert Ids(q)[j] in multiset(Ids(q));
      assert r.id in multiset(Ids(l));
      var m :| 0 <= m < |l| && Ids(l)[m] == r.id;
      assert l[m] in l;
    }
  }

  lemma NoGraves(l: seq<Task>, cpu: int)
    ensures Graves(l[..0], cpu) == []
  {}

  lemma MoreGraves(l: seq<Task>, k: nat, cpu: int, tick: int)
    requires k < |l|
    ensures Graves(l[..k + 1], cpu) == Graves(l[..k], cpu) + (if Buried(l[k], cpu) then [l[k]] else [])
    ensures !(Spent(l[k], cpu, tick) && Buried(l[k], cpu))
  {
    OneMore(l, k, cpu, tick);
  }

  /** Past the original queue there are only tasks with a renewed slice. */
  lemma AheadIsFresh(l: seq<Task>, k: nat, cpu: int, tick: int)
    requires QueueOk(l, tick) && k <= |l|
    ensures k == |l| ==> forall i | 0 <= i < |Ahead(l, k, cpu, tick)| :: Fresh(Ahead(l, k, cpu, tick)[i], cpu, tick)
  {
    if k == |l| {
      assert l[..k] == l && l[k..] == [];
      RenewedFresh(l, cpu, tick);
    }
  }

  lemma LongSlice(priority: nat, tickMin: int)
    requires priority >= 1 && tickMin > 0
    ensures priority * (16 * tickMin) > 2 * tickMin
  {
    assert priority * (16 * tickMin) >= 16 * tickMin;
  }

  /** From the wake list to the head of the run queue. */
  lemma WakeStep(run: seq<Task>, wake: seq<Task>, i: nat, t: Task, tick: int)
    requires QueueOk(run, tick) && NoRepeat(Ids(wake)) && i < |wake| && t.id == wake[i].id && t.wcet > tick
    requires forall r, w | r in run && w in wake :: r.id != w.id
    ensures QueueOk([t] + run, tick) && NoRepeat(Ids(Out(wake, i)))
    ensures forall w | w in Out(wake, i) :: w in wake && w.id != t.id
    ensures multiset(Ids([t] + run)) + multiset(Ids(Out(wake, i))) == multiset(Ids(run)) + multiset(Ids(wake))
  {
    OutDistinct(wake, i, t);
    IdsConcat([t], run);
    assert Ids([t]) == [t.id];
    hide Out;
    assert wake[i] in wake;
    forall w | w in Out(wake, i) ensures w in wake && w.id != t.id {
      OutMember(wake, i, w);
    }
  }

  lemma OutMember(l: seq<Task>, i: nat, w: Task)
    requires NoRepeat(Ids(l)) && i < |l| && w in Out(l, i)
    ensures w in l && w.id != l[i].id
  {
    var j :| 0 <= j < |Out(l, i)| && Out(l, i)[j] == w;
    var m := if j < i then j else j + 1;
    assert l[m] == w;
    assert Ids(l)[m] != Ids(l)[i];
  }

  /** A task that is woken up is the next one on a CPU it may run on. */
  method WakeThenPick(s: Scheduler, id: nat, cpu: int) returns (next: int)
    requires s.Valid() && exists t :: t in s.wake && t.id == id && (t.onCpu == cpu || t.onCpu == NONE)
    modifies s`run, s`wake, s`dead
    ensures s.Valid() && next == id
  {
    hide PickedAt, QueueOk, NoRepeat, Graves;
    ghost var t :| t in s.wake && t.id == id && (t.onCpu == cpu || t.onCpu == NONE);
    ghost var j :| 0 <= j < |s.wake| && s.wake[j] == t;
    assert Ids(s.wake)[j] == id;
    OneId(s.wake, t);
    var r := s.Wake(id);
    ghost var l := s.run;
    ghost var k;
    next, k := s.PickNext(cpu);
    FirstFreshPicked(l, k, cpu, 2 * s.tickMin, s.run, next, 0);
  }

  lemma OneId(l: seq<Task>, t: Task)
    requires NoRepeat(Ids(l)) && t in l
    ensures forall s | s in l && s.id == t.id :: s == t
  {
    var i :| 0 <= i < |l| && l[i] == t;
    forall s | s in l && s.id == t.id ensures s == t {
      var j :| 0 <= j < |l| && l[j] == s;
      assert Ids(l)[i] == Ids(l)[j];
    }
  }

  /**
   A task at the head of the queue that uses `used` of its time whenever it runs is picked until no more than two
   minimum ticks are left of its slice, and nothing else changes meanwhile.
   */
  method Slice(s: Scheduler, cpu: int, used: int) returns (picks: nat)
    requires s.Valid() && used > 0 && s.run != [] && Fresh(s.run[0], cpu, 2 * s.tickMin)
    modifies s`run, s`dead
    ensures s.Valid() && s.dead == old(s.dead) && picks > 0
    ensures s.run == old(s.run)[0 := old(s.run)[0].(runtime := old(s.run)[0].runtime - picks * used)]
    ensures var slice := old(s.run)[0].runtime - 2 * s.tickMin; (picks - 1) * used < slice <= picks * used
  {
    hide QueueOk, NoRepeat;
    ghost var l := s.run;
    picks := 0;
    while s.run[0].runtime > 2 * s.tickMin
      invariant s.Valid() && |s.run| == |l| && s.dead == old(s.dead)
      invariant s.run == l[0 := l[0].(runtime := l[0].runtime - picks * used)]
      invariant picks == 0 || (picks - 1) * used < l[0].runtime - 2 * s.tickMin
      decreases s.run[0].runtime
    {
      RunHead(s, cpu, used);
      picks := picks + 1;
    }
  }

  /** The head with time left is picked and comes back. */
  method RunHead(s: Scheduler, cpu: int, used: int)
    requires s.Valid() && s.run != [] && Fresh(s.run[0], cpu, 2 * s.tickMin)
    modifies s`run, s`dead
    ensures s.Valid() && s.dead == old(s.dead)
    ensures s.run == old(s.run)[0 := old(s.run)[0].(runtime := old(s.run)[0].runtime - used)]
  {
    hide PickedAt, Graves, NoRepeat, Long;
    ghost var q := s.run;
    var next, k := s.PickNext(cpu);
    HeadPicked(q, k, cpu, 2 * s.tickMin, s.run, next);
    assert Ids(s.run)[0] == next;
    HeadOnly(s.run);
    s.UpdateRuntime(next, used);
    assert s.run == q[0 := q[0].(runtime := q[0].runtime - used)];
  }

  lemma HeadOnly(l: seq<Task>)
    requires NoRepeat(Ids(l)) && l != []
    ensures forall i | 0 < i < |l| :: l[i].id != l[0].id
  {
    forall i | 0 < i < |l| ensures l[i].id != l[0].id {
      assert Ids(l)[i] != Ids(l)[0];
    }
  }

  /** A head with time left is picked, and only that. */
  lemma HeadPicked(l: seq<Task>, k: nat, cpu: int, tick: int, q: seq<Task>, next: int)
    requires PickedAt(l, k, cpu, tick, q, next) && l != [] && Fresh(l[0], cpu, tick)
    ensures k == 0 && next == l[0].id && q == l[0 := l[0].(state := Busy)] && Graves(l[..k], cpu) == []
  {
    FirstFreshPicked(l, k, cpu, tick, q, next, 0);
    assert l[..0] == [] && Ahead(l, 0, cpu, tick) == l;
    assert l == [l[0]] + l[1..];
  }

  /** One task alone is picked again and again, however much time it used. */
  method PickAgain(task: Task, cpu: int, tick: int, used: int) returns (first: int, second: int)
    requires tick > 0 && (task.onCpu == cpu || task.onCpu == NONE)
    ensures first == second == task.id
  {
    hide PickedAt, QueueOk, NoRepeat, Graves;
    var s := new Scheduler(tick);
    s.Enqueue(task);
    assert Ids(s.wake)[0] == task.id;
    var r := s.Wake(task.id);
    assert |s.run| == 1 + |s.run[1..]| == 1;
    ghost var k;
    ghost var l := s.run;
    first, k := s.PickNext(cpu);
    OnlyPick(l, k, cpu, 2 * tick, s.run, first);
    assert Ids(s.run)[0] == task.id;
    s.UpdateRuntime(task.id, used);
    l := s.run;
    second, k := s.PickNext(cpu);
    OnlyPick(l, k, cpu, 2 * tick, s.run, second);
  }

  /** A single task that may run is picked, and stays the only one. */
  lemma OnlyPick(l: seq<Task>, k: nat, cpu: int, tick: int, q: seq<Task>, next: int)
    requires PickedAt(l, k, cpu, tick, q, next) && |l| == 1 && Eligible(l[0], cpu)
    ensures next == l[0].id && |q| == 1 && q[0].id == l[0].id && q[0].state == Busy && q[0].onCpu == l[0].onCpu
  {
    assert l == [l[0]];
    if k == 0 {
      assert l[..0] == [];
      assert Ahead(l, k, cpu, tick) == l;
    } else {
      assert l[..1] == l && l[1..] == [] && l[..0] == [];
      assert Renewed(l, cpu, tick) == [Reset(l[0])] && Kept(l, cpu, tick) == [];
    }
  }
}
