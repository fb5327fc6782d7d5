/**
 Admission to the earliest-deadline-first queue of one CPU (kernel/sched/edf.c): hyperperiod, longest task
 and the slot test, over the wake and run lists.
 */
module Edf {
  import opened EdfArith

  /** The subtractive gcd loop. */
  method SubtractiveGcd(x: int, y: int) returns (g: int)
    requires x > 0 && y > 0
    ensures Gcd(g, x, y)
  {
    var a, b := x, y;
    ghost var xa, ya, xb, yb := 1, 0, 0, 1;  // a and b as combinations of x and y
    ghost var ax, bx, ay, by_ := 1, 0, 0, 1; // x and y as combinations of a and b
    while a != b
      invariant a > 0 && b > 0
      invariant a == Prod(x, xa) + Prod(y, ya) && b == Prod(x, xb) + Prod(y, yb)
      invariant x == Prod(a, ax) + Prod(b, bx) && y == Prod(a, ay) + Prod(b, by_)
      decreases a + b
    {
      if a > b {
        CombineLess(x, y, xa, ya, xb, yb);
        CombineMore(a, b, ax, bx);
        CombineMore(a, b, ay, by_);
        a, xa, ya := a - b, xa - xb, ya - yb;
        bx, by_ := ax + bx, ay + by_;
      } else {
        CombineLess(x, y, xb, yb, xa, ya);
        CombineMore(b, a, bx, ax);
        CombineMore(b, a, by_, ay);
        b, xb, yb := b - a, xb - xa, yb - ya;
        ax, ay := ax + bx, ay + by_;
      }
    }
    g := a;
    assert Prod(g, ax + bx) == x && Prod(g, ay + by_) == y;
  }

  lemma CombineLess(x: int, y: int, xa: int, ya: int, xb: int, yb: int)
    ensures Prod(x, xa - xb) + Prod(y, ya - yb) == Prod(x, xa) + Prod(y, ya) - (Prod(x, xb) + Prod(y, yb))
  {}

  lemma CombineMore(a: int, b: int, k: int, m: int)
    ensures Prod(a - b, k) + Prod(b, k + m) == Prod(a, k) + Prod(b, m)
  {}

  /** One turn of the loops of edf_hyperperiod. */
  method Extend(lcm: int, t: Task, ghost l: seq<Task>) returns (r: int)
    requires Hyperperiod(lcm, l) && t.period > 0
    ensures Hyperperiod(r, l + [t])
  {
    if lcm % t.period == 0 {
      SelfDivides(lcm);
      HyperperiodStep(lcm, l, t, lcm);
      return lcm;
    }
    var g := SubtractiveGcd(lcm, t.period);
    LcmByGcd(lcm, t.period, g);
    r := lcm * (t.period / g);
    HyperperiodStep(lcm, l, t, r);
  }

  lemma SelfDivides(h: int)
    requires h > 0
    ensures Divides(h, h)
  {
    Multiple(h, 1);
  }

  ghost predicate Periodic(l: seq<Task>) { forall i | 0 <= i < |l| :: l[i].period > 0 }

  /** edf_hyperperiod. */
  method EdfHyperperiod(wake: seq<Task>, run: seq<Task>, task: Task) returns (lcm: int)
    requires Periodic(wake) && Periodic(run) && task.period > 0
    ensures Hyperperiod(lcm, [task] + run + wake)
  {
    lcm := task.period;
    HyperperiodOne(task);
    ghost var l := [task];
    for i := 0 to |run|
      invariant l == [task] + run[..i] && Hyperperiod(lcm, l)
    {
      lcm := Extend(lcm, run[i], l);
      l := l + [run[i]];
    }
    assert l == [task] + run;
    for i := 0 to |wake|
      invariant l == [task] + run + wake[..i] && Hyperperiod(lcm, l)
    {
      lcm := Extend(lcm, wake[i], l);
      l := l + [wake[i]];
    }
    assert l == [task] + run + wake;
  }

  /** The first task of the longest period. */
  ghost predicate FirstLongest(l: seq<Task>, t0: Task) {
    exists k :: 0 <= k < |l| && l[k] == t0 && (forall i | 0 <= i < k :: l[i].period < t0.period)
                && forall i | 0 <= i < |l| :: l[i].period <= t0.period
  }

  method Longer(t0: Task, l: seq<Task>, ghost before: seq<Task>) returns (r: Task)
    requires FirstLongest(before, t0)
    ensures FirstLongest(before + l, r)
  {
    hide FirstLongest;
    r := t0;
    ghost var seen := before;
    for i := 0 to |l|
      invariant seen == before + l[..i] && FirstLongest(seen, r)
    {
      LongerStep(seen, r, l[i]);
      if l[i].period > r.period {
        r := l[i];
      }
      seen := seen + [l[i]];
    }
    assert seen == before + l;
  }

  lemma LongerStep(l: seq<Task>, t0: Task, t: Task)
    requires FirstLongest(l, t0)
    ensures FirstLongest(l + [t], if t.period > t0.period then t else t0)
  {
    var m := l + [t];
    var k :| 0 <= k < |l| && l[k] == t0 && (forall i | 0 <= i < k :: l[i].period < t0.period)
             && forall i | 0 <= i < |l| :: l[i].period <= t0.period;
    assert forall i | 0 <= i < |l| :: m[i] == l[i];
    if t.period > t0.period {
      assert m[|l|] == t;
    } else {
      assert m[k] == t0;
    }
  }

  /** edf_longest_period_task. */
  method LongestPeriodTask(wake: seq<Task>, run: seq<Task>, task: Task) returns (t0: Task)
    ensures FirstLongest([task] + wake + run, t0)
  {
    assert [task][0] == task;
    t0 := Longer(task, wake, [task]);
    t0 := Longer(t0, run, [task] + wake);
  }

  /** One walk of the slot test over a list: what is left of the room, or which part is short. */
  method Charge(l: seq<Task>, t0: Task, h: int, f1: int, room: Slots) returns (r: int, left: Slots)
    requires AllAdmissible(l) && Admissible(t0) && h > 0 && f1 == t0.period - t0.deadline
    requires room.head >= 0 && room.tail >= 0
    ensures r == 0 <==> Taken(l, t0, h).head <= room.head && Taken(l, t0, h).tail <= room.tail
    ensures r == 0 ==> left == Slots(room.head - Taken(l, t0, h).head, room.tail - Taken(l, t0, h).tail)
    ensures r == 0 || (r == -1 && Taken(l, t0, h).head > room.head) || (r == -2 && Taken(l, t0, h).tail > room.tail)
  {
    hide Taken, AllAdmissible;
    var uh, ut := room.head, room.tail;
    TakenNone(t0, h);
    assert l[..0] == [];
    for i := 0 to |l|
      invariant AllAdmissible(l[..i])
      invariant uh == room.head - Taken(l[..i], t0, h).head && ut == room.tail - Taken(l[..i], t0, h).tail
      invariant uh >= 0 && ut >= 0
    {
      TakenNext(l, t0, h, i);
      var tsk := l[i];
      if tsk == t0 {
        continue;
      }
      if tsk.deadline <= t0.deadline {
        var sh := h * tsk.wcet * t0.deadline / tsk.period;
        if sh > uh {
          return -1, Slots(uh, ut);
        }
        uh := uh - sh;
      }
      var st := h * tsk.wcet * f1 / tsk.period;
      if st > ut {
        return -2, Slots(uh, ut);
      }
      ut := ut - st;
    }
    assert l[..|l|] == l;
    return 0, Slots(uh, ut);
  }

  lemma TakenNone(t0: Task, h: int)
    ensures AllAdmissible([]) && Taken([], t0, h) == Slots(0, 0)
  {}

  lemma TakenNext(l: seq<Task>, t0: Task, h: int, i: nat)
    requires AllAdmissible(l) && Admissible(t0) && h > 0 && i < |l|
    ensures AllAdmissible(l[..i]) && AllAdmissible(l[..i + 1]) && Admissible(l[i])
    ensures Taken(l[..i + 1], t0, h).head == Taken(l[..i], t0, h).head + Share(l[i], t0, h).head
    ensures Taken(l[..i + 1], t0, h).tail == Taken(l[..i], t0, h).tail + Share(l[i], t0, h).tail
    ensures Taken(l[..i + 1], t0, h).head <= Taken(l, t0, h).head
            && Taken(l[..i + 1], t0, h).tail <= Taken(l, t0, h).tail
  {
    hide Share;
    assert l[..i + 1][..i] == l[..i];
    TakenGrows(l, t0, h, i + 1);
  }

  /** All tasks of a CPU in the order in which the slot test walks them. */
  function Queue(wake: seq<Task>, run: seq<Task>, task: Task): seq<Task> { wake + run + [task] }

  /** Head and tail suffice next to the longest task, over the hyperperiod of all. */
  ghost predicate Passes(wake: seq<Task>, run: seq<Task>, task: Task) {
    var q := Queue(wake, run, task);
    AllAdmissible(q) && exists t0, p :: FirstLongest([task] + wake + run, t0) && Hyperperiod(p, q)
                                        && t0.period > 0 && Fits(q, t0, p / t0.period)
  }

  /** There is one longest task and one hyperperiod, so these decide. */
  lemma {:induction false} PassesIs(wake: seq<Task>, run: seq<Task>, task: Task, t0: Task, p: int)
    requires AllAdmissible(Queue(wake, run, task)) && t0.period > 0
    requires FirstLongest([task] + wake + run, t0) && Hyperperiod(p, Queue(wake, run, task))
    ensures Passes(wake, run, task) <==> Fits(Queue(wake, run, task), t0, p / t0.period)
  {
    hide FirstLongest, Hyperperiod, Fits, AllAdmissible;
    var l, q := [task] + wake + run, Queue(wake, run, task);
    forall t, k | FirstLongest(l, t) && Hyperperiod(k, q) ensures t == t0 && k == p {
      OneFirst(l, t, t0);
      HyperperiodUnique(k, p, q, q);
    }
  }

  lemma OneFirst(l: seq<Task>, t: Task, s: Task)
    requires FirstLongest(l, t) && FirstLongest(l, s)
    ensures t == s
  {}

  /** edf_test_slot_utilisation. */
  method TestSlotUtilisation(wake: seq<Task>, run: seq<Task>, task: Task) returns (r: int)
    requires AllAdmissible(wake) && AllAdmissible(run) && Admissible(task)
    ensures r == 0 <==> Passes(wake, run, task)
    ensures r in {0, -1, -2}
  {
    var t0 := LongestPeriodTask(wake, run, task);
    var p := EdfHyperperiod(wake, run, task);
    WholePeriods(wake, run, task, t0, p);
    var h := p / t0.period;
    var uh, ut := h * (t0.deadline - t0.wcet), h * (t0.period - t0.deadline);
    NonNegative(h, t0.deadline - t0.wcet);
    NonNegative(h, t0.period - t0.deadline);
    Multiple(h, t0.period - t0.deadline);
    var f1 := ut / h;
    QueueTaken(wake, run, task, t0, h);
    PassesIs(wake, run, task, t0, p);
    TakenGrows(wake, t0, h, 0);
    TakenGrows(run, t0, h, 0);
    TakenGrows([task], t0, h, 0);
    hide Taken, Hyperperiod, FirstLongest, Share, Passes, AllAdmissible, Queue;
    var left;
    r, left := Charge(wake, t0, h, f1, Slots(uh, ut));
    if r != 0 {
      return;
    }
    r, left := Charge(run, t0, h, f1, left);
    if r != 0 {
      return;
    }
    r, left := Charge([task], t0, h, f1, left);
  }

  lemma QueueTaken(wake: seq<Task>, run: seq<Task>, task: Task, t0: Task, h: int)
    requires AllAdmissible(wake) && AllAdmissible(run) && Admissible(task)
    ensures var q := Queue(wake, run, task);
            && AllAdmissible(q) && AllAdmissible([task])
            && Taken(q, t0, h).head == Taken(wake, t0, h).head + Taken(run, t0, h).head + Taken([task], t0, h).head
            && Taken(q, t0, h).tail == Taken(wake, t0, h).tail + Taken(run, t0, h).tail + Taken([task], t0, h).tail
  {
    TakenConcat(wake, run, t0, h);
    TakenConcat(wake + run, [task], t0, h);
  }

  /** The hyperperiod is a whole number of the longest task's periods. */
  lemma WholePeriods(wake: seq<Task>, run: seq<Task>, task: Task, t0: Task, p: int)
    requires AllAdmissible(wake) && AllAdmissible(run) && Admissible(task)
    requires FirstLongest([task] + wake + run, t0) && Hyperperiod(p, [task] + run + wake)
    ensures Admissible(t0) && p == (p / t0.period) * t0.period && p / t0.period > 0
    ensures Hyperperiod(p, Queue(wake, run, task)) && t0 in Queue(wake, run, task)
  {
    hide Hyperperiod, FirstLongest, AllAdmissible, Divides;
    var q := Queue(wake, run, task);
    IsMember([task] + wake + run, t0);
    assert multiset([task] + run + wake) == multiset(q);
    HyperperiodSame(p, [task] + run + wake, q);
    MemberOf(wake, run, task, t0);
    PeriodsIn(q, t0, p);
  }

  lemma IsMember(l: seq<Task>, t0: Task)
    requires FirstLongest(l, t0)
    ensures t0 in l
  {}

  lemma MemberOf(wake: seq<Task>, run: seq<Task>, task: Task, t: Task)
    requires AllAdmissible(wake) && AllAdmissible(run) && Admissible(task) && t in [task] + wake + run
    ensures t in Queue(wake, run, task) && Admissible(t)
  {}

  lemma PeriodsIn(l: seq<Task>, t0: Task, p: int)
    requires Hyperperiod(p, l) && t0 in l && Admissible(t0)
    ensures p == (p / t0.period) * t0.period && p / t0.period > 0
  {
    var k :| 0 <= k < |l| && l[k] == t0;
    assert Divides(l[k].period, p);
    Order(t0.period, p / t0.period);
  }

  lemma HyperperiodSame(h: int, a: seq<Task>, b: seq<Task>)
    requires Hyperperiod(h, a) && multiset(a) == multiset(b)
    ensures Hyperperiod(h, b)
  {
    SamePeriods(h, a, b);
    forall m | CommonPeriod(m, b) ensures Divides(h, m) {
      SamePeriods(m, b, a);
    }
  }

  // ---------------------------------------------------------------- what the test promises

  /** The verdict depends on which tasks are queued and which of them counts as the longest, not on the order. */
  lemma VerdictUnordered(a: seq<Task>, b: seq<Task>, t0: Task, h: int, k: int)
    requires AllAdmissible(a) && multiset(a) == multiset(b) && Admissible(t0) && Hyperperiod(h, a) && Hyperperiod(k, b)
    ensures h == k && AllAdmissible(b) && (Fits(a, t0, h / t0.period) <==> Fits(b, t0, k / t0.period))
  {
    AdmissibleSame(a, b);
    HyperperiodUnique(h, k, a, b);
    TakenUnordered(a, b, t0, h / t0.period);
  }

  /** No period in the queue exceeds that of `x`. */
  ghost predicate Longest(q: seq<Task>, x: Task) { x in q && forall z | z in q :: z.period <= x.period }

  /** All orders of the queued tasks give the same verdict. */
  ghost predicate OrderIsIrrelevant(w: seq<Task>, r: seq<Task>, t: Task) {
    forall w', r' | multiset(w' + r') == multiset(w + r) :: Passes(w', r', t) <==> Passes(w, r, t)
  }

  /** The new task is among the longest, or all of the longest queued ones lead to the same verdict. */
  ghost predicate TiesAgree(w: seq<Task>, r: seq<Task>, t: Task, p: int)
    requires AllAdmissible(Queue(w, r, t))
  {
    var q := Queue(w, r, t);
    Longest(q, t) || forall x, y | Longest(q, x) && Longest(q, y) && x.period > 0 && y.period > 0 ::
                       Fits(q, x, p / x.period) <==> Fits(q, y, p / y.period)
  }

  /** The order of the queues does not matter exactly if ties agree. */
  lemma OrderMattersExactly(w: seq<Task>, r: seq<Task>, t: Task, p: int)
    requires AllAdmissible(Queue(w, r, t)) && Hyperperiod(p, Queue(w, r, t))
    ensures OrderIsIrrelevant(w, r, t) <==> TiesAgree(w, r, t, p)
  {
    hide Passes, Hyperperiod, AllAdmissible, Fits, Longest, Queue;
    if TiesAgree(w, r, t, p) {
      forall w', r' | multiset(w' + r') == multiset(w + r) ensures Passes(w', r', t) <==> Passes(w, r, t) {
        SameVerdict(w, r, w', r', t, p);
      }
    }
    if !TiesAgree(w, r, t, p) {
      var q := Queue(w, r, t);
      var x, y :| Longest(q, x) && Longest(q, y) && x.period > 0 && y.period > 0
                  && !(Fits(q, x, p / x.period) <==> Fits(q, y, p / y.period));
      var wx := PutFirst(w, r, t, x, p);
      var wy := PutFirst(w, r, t, y, p);
      assert wx + [] == wx && wy + [] == wy;
      assert OrderIsIrrelevant(w, r, t) ==> (Passes(wx, [], t) <==> Passes(w, r, t));
      assert OrderIsIrrelevant(w, r, t) ==> (Passes(wy, [], t) <==> Passes(w, r, t));
    }
  }

  /** Whatever task comes first among the longest, the verdict is that of its slots. */
  lemma {:induction false} VerdictOf(w: seq<Task>, r: seq<Task>, w': seq<Task>, r': seq<Task>, t: Task, p: int, s: Task)
    requires AllAdmissible(Queue(w, r, t)) && Hyperperiod(p, Queue(w, r, t)) && multiset(w + r) == multiset(w' + r')
    requires FirstLongest([t] + w' + r', s)
    ensures Longest(Queue(w, r, t), s) && s.period > 0
    ensures Passes(w', r', t) <==> Fits(Queue(w, r, t), s, p / s.period)
  {
    hide Passes, Hyperperiod, Fits, FirstLongest;
    var q, q' := Queue(w, r, t), Queue(w', r', t);
    QueueBags(w, r, w', r', t);
    LongestOf([t] + w' + r', q, s);
    MemberPositive(q, s);
    AdmissibleSame(q, q');
    HyperperiodSame(p, q, q');
    PassesIs(w', r', t, s, p);
    TakenUnordered(q, q', s, p / s.period);
    FitsEqual(q, q', s, p / s.period);
  }

  lemma MemberPositive(q: seq<Task>, s: Task)
    requires AllAdmissible(q) && s in q
    ensures s.period > 0
  {}

  lemma FitsEqual(q: seq<Task>, q': seq<Task>, s: Task, h: int)
    requires AllAdmissible(q) && AllAdmissible(q') && Taken(q, s, h) == Taken(q', s, h)
    ensures Fits(q, s, h) <==> Fits(q', s, h)
  {}

  lemma LongestOf(l: seq<Task>, q: seq<Task>, s: Task)
    requires FirstLongest(l, s) && multiset(l) == multiset(q)
    ensures Longest(q, s)
  {
    assert s in multiset(l);
    forall z | z in q ensures z.period <= s.period {
      assert z in multiset(q);
      var k :| 0 <= k < |l| && l[k] == z;
    }
  }

  lemma SameVerdict(w: seq<Task>, r: seq<Task>, w': seq<Task>, r': seq<Task>, t: Task, p: int)
    requires AllAdmissible(Queue(w, r, t)) && Hyperperiod(p, Queue(w, r, t)) && multiset(w + r) == multiset(w' + r')
    requires TiesAgree(w, r, t, p)
    ensures Passes(w', r', t) <==> Passes(w, r, t)
  {
    hide Passes, Hyperperiod, Fits, AllAdmissible, FirstLongest;
    var s := SomeFirst([t] + w + r);
    var s' := SomeFirst([t] + w' + r');
    VerdictOf(w, r, w, r, t, p, s);
    VerdictOf(w, r, w', r', t, p, s');
    if Longest(Queue(w, r, t), t) {
      NewFirst(w, r, t, s, Queue(w, r, t));
      NewFirst(w', r', t, s', Queue(w, r, t));
    }
  }

  /** A new task among the longest counts as the longest. */
  lemma NewFirst(w: seq<Task>, r: seq<Task>, t: Task, s: Task, q: seq<Task>)
    requires FirstLongest([t] + w + r, s) && Longest(q, t) && s in q
    ensures s == t
  {
    assert ([t] + w + r)[0] == t;
  }

  lemma {:induction false} SomeFirst(l: seq<Task>) returns (s: Task)
    requires l != []
    ensures FirstLongest(l, s)
  {
    if |l| == 1 {
      assert l[0] in l;
      return l[0];
    }
    var m := l[..|l| - 1];
    s := SomeFirst(m);
    LongerStep(m, s, l[|l| - 1]);
    assert m + [l[|l| - 1]] == l;
    s := if l[|l| - 1].period > s.period then l[|l| - 1] else s;
  }

  /** With the wanted one of the longest tasks in front of the wake list, that decides. */
  lemma PutFirst(w: seq<Task>, r: seq<Task>, t: Task, x: Task, p: int) returns (w': seq<Task>)
    requires AllAdmissible(Queue(w, r, t)) && Hyperperiod(p, Queue(w, r, t))
    requires Longest(Queue(w, r, t), x) && !Longest(Queue(w, r, t), t) && x.period > 0
    ensures multiset(w' + []) == multiset(w + r)
    ensures Passes(w', [], t) <==> Fits(Queue(w, r, t), x, p / x.period)
  {
    hide Passes, Hyperperiod, Fits, AllAdmissible;
    var q, l := Queue(w, r, t), w + r;
    assert t in q;
    assert x in l;
    var k :| 0 <= k < |l| && l[k] == x;
    w' := [x] + (l[..k] + l[k + 1..]);
    assert l == l[..k] + [l[k]] + l[k + 1..];
    assert w' + [] == w';
    FirstInFront(w', t, x, q, l);
    VerdictOf(w, r, w', [], t, p, x);
  }

  lemma FirstInFront(w': seq<Task>, t: Task, x: Task, q: seq<Task>, l: seq<Task>)
    requires w' != [] && w'[0] == x && Longest(q, x) && !Longest(q, t) && t in q
    requires multiset(w') == multiset(l) && q == l + [t]
    ensures FirstLongest([t] + w' + [], x)
  {
    var a := [t] + w' + [];
    assert a[1] == x && a[0] == t;
    forall i | 0 <= i < |a| ensures a[i].period <= x.period {
      if i > 0 {
        assert a[i] == w'[i - 1];
        assert w'[i - 1] in multiset(w');
        assert a[i] in l;
      }
    }
  }

  lemma QueueBags(w: seq<Task>, r: seq<Task>, w': seq<Task>, r': seq<Task>, t: Task)
    requires multiset(w + r) == multiset(w' + r')
    ensures multiset(Queue(w, r, t)) == multiset(Queue(w', r', t))
    ensures multiset([t] + w + r) == multiset(Queue(w, r, t)) && multiset([t] + w' + r') == multiset(Queue(w', r', t))
  {
    assert [t] + w + r == [t] + (w + r) && [t] + w' + r' == [t] + (w' + r');
  }

  /** Processor time that the tasks need in a hyperperiod. */
  function Demand(l: seq<Task>, p: int): int
    requires AllAdmissible(l)
  {
    if l == [] then 0 else
      Demand(l[..|l| - 1], p) + Need(l[|l| - 1], p)
  }

  /** Cutting a whole number of units in two loses at most one when both parts are rounded down. */
  lemma RoundingLoss(x: int, y: int, p: int, d: int)
    requires p > 0 && x + y == p * d
    ensures d <= x / p + y / p + 1
  {
    var k := d - x / p - y / p;
    assert p * k == x % p + y % p;
    assert p * (k - 1) < p;
    Order(p, k - 1);
  }

  /** The demand of one task. */
  function Need(t: Task, p: int): int
    requires t.period > 0
  {
    t.wcet * (p / t.period)
  }

  /** The shares of one task cover its demand up to one slot. */
  lemma ShareCovers(t: Task, t0: Task, h: int, p: int)
    requires Admissible(t) && Admissible(t0) && h > 0 && t != t0 && t.deadline <= t0.deadline
    requires p == h * t0.period && Divides(t.period, p)
    ensures Need(t, p) <= Share(t, t0, h).head + Share(t, t0, h).tail + 1
  {
    var n := p / t.period;
    var x, y := h * t.wcet * t0.deadline, h * t.wcet * (t0.period - t0.deadline);
    assert x + y == h * t.wcet * t0.period;
    assert h * t.wcet * t0.period == p * t.wcet;
    assert p == t.period * n;
    assert (t.period * n) * t.wcet == t.period * (t.wcet * n);
    RoundingLoss(x, y, t.period, t.wcet * n);
  }

  lemma OwnNeed(t0: Task, h: int, p: int)
    requires Admissible(t0) && p == h * t0.period
    ensures Need(t0, p) == h * t0.wcet && Share(t0, t0, h) == Slots(0, 0)
  {
    Multiple(t0.period, h);
  }

  /** Shares cover demand, up to one slot for each task other than `t0`. */
  lemma {:induction false} DemandCovered(l: seq<Task>, t0: Task, h: int, p: int)
    requires AllAdmissible(l) && Admissible(t0) && h > 0 && p == h * t0.period && CommonPeriod(p, l)
    requires forall i | 0 <= i < |l| :: l[i].deadline <= t0.deadline
    ensures t0 !in l ==> Demand(l, p) <= Taken(l, t0, h).head + Taken(l, t0, h).tail + |l|
    ensures multiset(l)[t0] == 1 ==> Demand(l, p) <= Taken(l, t0, h).head + Taken(l, t0, h).tail + |l| - 1 + h * t0.wcet
    decreases |l|
  {
    hide Share, Need;
    if l != [] {
      var m, x := l[..|l| - 1], l[|l| - 1];
      assert l == m + [x];
      assert multiset(l) == multiset(m) + multiset{x};
      assert Divides(x.period, p);
      DemandCovered(m, t0, h, p);
      if x == t0 {
        OwnNeed(t0, h, p);
        assert multiset(l)[t0] == 1 ==> t0 !in m;
      } else {
        ShareCovers(x, t0, h, p);
      }
    }
  }

  /**
   If no deadline exceeds that of the longest task, tasks that pass the slot test need no more than the
   hyperperiod, plus one slot for each of the other tasks.
   */
  lemma {:induction false} DemandBound(l: seq<Task>, t0: Task, p: int, h: int)
    requires AllAdmissible(l) && Admissible(t0) && multiset(l)[t0] == 1 && Hyperperiod(p, l)
    requires p == h * t0.period && h > 0
    requires Fits(l, t0, h) && forall i | 0 <= i < |l| :: l[i].deadline <= t0.deadline
    ensures Demand(l, p) <= p + (|l| - 1)
  {
    hide Taken, Demand;
    DemandCovered(l, t0, h, p);
    RoomIs(t0, h);
  }

  /** So does a pass of the test, the longest task being the one that the test chooses. */
  lemma {:induction false} PassBoundsDemand(wake: seq<Task>, run: seq<Task>, task: Task, t0: Task, p: int)
    requires Passes(wake, run, task) && FirstLongest([task] + wake + run, t0) && Hyperperiod(p, Queue(wake, run, task))
    requires forall x | x in Queue(wake, run, task) ::
               multiset(Queue(wake, run, task))[x] == 1 && x.deadline <= t0.deadline
    ensures Demand(Queue(wake, run, task), p) <= p + |wake| + |run|
  {
    hide FirstLongest, Hyperperiod, Fits, Demand, Divides, Taken;
    var q := Queue(wake, run, task);
    IsMember([task] + wake + run, t0);
    assert t0 in q && AllAdmissible(q);
    MemberPositive(q, t0);
    PassesIs(wake, run, task, t0, p);
    hide Passes, AllAdmissible;
    PeriodsIn(q, t0, p);
    DemandBound(q, t0, p, p / t0.period);
  }

  /**
   A queue passes if the unrounded sums fit beside the longest task, before its deadlines and after them. If it passes,
   they exceed the room by one slot for each task at most.
   */
  lemma {:induction false} PassesUnrounded(wake: seq<Task>, run: seq<Task>, task: Task, t0: Task, p: int)
    requires var q := Queue(wake, run, task);
             AllAdmissible(q) && FirstLongest([task] + wake + run, t0) && Hyperperiod(p, q) && t0.period > 0
    ensures var q, h := Queue(wake, run, task), p / t0.period;
            var x, head, tail := Unrounded(q, t0, h), h * (t0.deadline - t0.wcet), h * (t0.period - t0.deadline);
            && (x.head <= head as real && x.tail <= tail as real ==> Passes(wake, run, task))
            && (Passes(wake, run, task) ==> x.head <= (head + |q|) as real && x.tail <= (tail + |q|) as real)
  {
    hide FirstLongest, Hyperperiod, Divides, Taken, Unrounded, Passes;
    var q, h := Queue(wake, run, task), p / t0.period;
    IsMember([task] + wake + run, t0);
    assert t0 in q;
    MemberAdmissible(q, t0);
    PassesIs(wake, run, task, t0, p);
    TakenUnrounded(q, t0, h);
  }

  lemma MemberAdmissible(q: seq<Task>, t0: Task)
    requires AllAdmissible(q) && t0 in q
    ensures Admissible(t0)
  {}

  lemma RoomIs(t0: Task, h: int)
    ensures Room(t0, h).head + Room(t0, h).tail + h * t0.wcet == h * t0.period
  {}

  // ---------------------------------------------------------------- the limits of the test

  /** With two tasks of the longest period, the order of the wake list decides the verdict. */
  lemma {:induction false} TieMatters(x: Task, y: Task, a: Task, b: Task)
    requires x == Task(1, 3, 2, 1) && y == Task(2, 3, 2, 1) && a == Task(3, 10, 2, 1) && b == Task(4, 10, 9, 1)
    ensures AllAdmissible(Queue([a, b], [y], x)) && AllAdmissible(Queue([b, a], [y], x))
    ensures multiset(Queue([a, b], [y], x)) == multiset(Queue([b, a], [y], x))
    ensures Hyperperiod(30, Queue([a, b], [y], x)) && Hyperperiod(30, Queue([b, a], [y], x))
    ensures FirstLongest([x] + [a, b] + [y], a) && FirstLongest([x] + [b, a] + [y], b)
    ensures !Passes([a, b], [y], x) && Passes([b, a], [y], x)
  {
    hide Taken, Share, Fits, Room, Passes, FirstLongest, Hyperperiod;
    var q, q' := Queue([a, b], [y], x), Queue([b, a], [y], x);
    assert q == [a, b, y, x] && q' == [b, a, y, x];
    SecondFirst(x, a, b, y);
    SecondFirst(x, b, a, y);
    FourPeriods(q);
    HyperperiodSame(30, q, q');
    TieFits(x, y, a, b);
    PassesIs([a, b], [y], x, a, 30);
    PassesIs([b, a], [y], x, b, 30);
  }

  lemma SecondFirst(x: Task, a: Task, b: Task, y: Task)
    requires x.period < a.period && y.period < a.period && b.period <= a.period
    ensures FirstLongest([x] + [a, b] + [y], a)
  {
    var l := [x] + [a, b] + [y];
    assert l == [x, a, b, y];
    assert l[1] == a;
  }

  lemma TieFits(x: Task, y: Task, a: Task, b: Task)
    requires x == Task(1, 3, 2, 1) && y == Task(2, 3, 2, 1) && a == Task(3, 10, 2, 1) && b == Task(4, 10, 9, 1)
    ensures AllAdmissible([a, b, y, x]) && AllAdmissible([b, a, y, x])
    ensures !Fits([a, b, y, x], a, 3) && Fits([b, a, y, x], b, 3)
  {
    hide Taken;
    TakenFour(a, b, y, x, a, 3);
    TakenFour(b, a, y, x, b, 3);
  }

  lemma TakenFour(a: Task, b: Task, c: Task, d: Task, t0: Task, h: int)
    requires Admissible(a) && Admissible(b) && Admissible(c) && Admissible(d)
    ensures AllAdmissible([a, b, c, d])
    ensures var s := Taken([a, b, c, d], t0, h);
            && s.head == Share(a, t0, h).head + Share(b, t0, h).head + Share(c, t0, h).head + Share(d, t0, h).head
            && s.tail == Share(a, t0, h).tail + Share(b, t0, h).tail + Share(c, t0, h).tail + Share(d, t0, h).tail
  {
    hide Share, Taken;
    assert [a, b, c, d] == [a] + [b] + [c] + [d];
    TakenOne(a, t0, h);
    TakenOne(b, t0, h);
    TakenOne(c, t0, h);
    TakenOne(d, t0, h);
    TakenConcat([a], [b], t0, h);
    TakenConcat([a] + [b], [c], t0, h);
    TakenConcat([a] + [b] + [c], [d], t0, h);
  }

  lemma FourPeriods(q: seq<Task>)
    requires |q| == 4 && q[0].period == q[1].period == 10 && q[2].period == q[3].period == 3
    ensures Hyperperiod(30, q)
  {
    forall m | CommonPeriod(m, q) ensures Divides(30, m) {
      assert Divides(q[0].period, m) && Divides(q[2].period, m);
    }
  }

  lemma DemandThree(a: Task, b: Task, d: Task, p: int)
    requires Admissible(a) && Admissible(b) && Admissible(d)
    ensures AllAdmissible([a, b, d]) && Demand([a, b, d], p) == Need(a, p) + Need(b, p) + Need(d, p)
  {
    hide Need;
    var q := [a, b, d];
    assert q[..2] == [a, b] && [a, b][..1] == [a] && [a][..0] == [];
    assert Demand([], p) == 0;
    assert Demand([a], p) == Need(a, p);
    assert Demand([a, b], p) == Need(a, p) + Need(b, p);
  }

  /** With a deadline beyond that of the longest task, a queue that passes can need more than there is. */
  lemma LateDeadlineOverload(a: Task, b: Task, d: Task)
    requires a == Task(1, 10, 2, 1) && b == Task(2, 9, 8, 7) && d == Task(3, 9, 8, 2)
    ensures AllAdmissible([a, b, d]) && FirstLongest([a, b, d], a) && Hyperperiod(90, [a, b, d])
    ensures Fits([a, b, d], a, 9) && Demand([a, b, d], 90) == 99
  {
    var q := [a, b, d];
    assert q[0] == a;
    assert q == [a] + [b] + [d];
    TakenOne(a, a, 9);
    TakenOne(b, a, 9);
    TakenOne(d, a, 9);
    TakenConcat([a], [b], a, 9);
    TakenConcat([a] + [b], [d], a, 9);
    forall m | CommonPeriod(m, q) ensures Divides(90, m) {
      assert Divides(q[0].period, m) && Divides(q[1].period, m);
    }
    DemandThree(a, b, d, 90);
  }
}
