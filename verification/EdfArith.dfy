/**
 The arithmetic behind the admission test of kernel/sched/edf.c: hyperperiods as least common multiples, and
 the slots that tasks take before and after the deadline of whichever task has the longest period.
 */
module EdfArith {
  datatype Task = Task(id: int, period: int, deadline: int, wcet: int)

  /** What the slot test meets in its queues. */
  predicate Admissible(t: Task) { 0 < t.wcet < t.deadline <= t.period }

  /** edf_check_sched_attr, with the minimum tick; a period of 0 stands for a task that runs once. */
  predicate Checked(t: Task, tick: int) {
    && t.wcet >= tick && t.deadline - t.wcet >= tick && t.wcet < t.deadline
    && (t.period > 0 ==> t.wcet < t.period && t.deadline < t.period && t.period - t.deadline >= tick)
  }

  /** edf_enqueue gives a task that runs once its deadline as period. */
  function Enqueued(t: Task): Task { if t.period == 0 then t.(period := t.deadline) else t }

  /** Tasks that pass the check reach the slot test so, unless their period is negative, which the check lets pass. */
  lemma CheckedIsAdmissible(t: Task, tick: int)
    requires Checked(t, tick) && tick > 0
    ensures Admissible(Enqueued(t)) <==> t.period >= 0
  {}

  ghost predicate AllAdmissible(l: seq<Task>) { forall i | 0 <= i < |l| :: Admissible(l[i]) }

  // ---------------------------------------------------------------- divisibility

  predicate Divides(a: int, b: int)
    requires a > 0
  {
    b % a == 0
  }

  lemma Multiple(a: int, k: int)
    requires a > 0
    ensures Divides(a, a * k) && a * k / a == k
  {
    var q, r := a * k / a, a * k % a;
    assert a * k == a * q + r;
    assert r == a * (k - q);
    Order(a, k - q);
  }

  /** A product with a positive factor has the sign of the other one. */
  lemma Order(a: int, k: int)
    requires a > 0
    ensures (k >= 1 <==> a * k >= a) && (k <= -1 <==> a * k <= -a) && (k >= 1 <==> a * k > 0)
            && (k == 0 <==> a * k == 0)
  {}

  lemma Factor(a: int, b: int) returns (k: int)
    requires a > 0 && Divides(a, b)
    ensures b == a * k
  {
    k := b / a;
  }

  lemma DividesTrans(a: int, b: int, c: int)
    requires a > 0 && b > 0 && Divides(a, b) && Divides(b, c)
    ensures Divides(a, c)
  {
    var k := Factor(a, b);
    var m := Factor(b, c);
    assert c == a * (k * m) by {
      assert b * m == a * k * m;
    }
    Multiple(a, k * m);
  }

  lemma DividesBoth(a: int, b: int)
    requires a > 0 && b > 0 && Divides(a, b) && Divides(b, a)
    ensures a == b
  {
    var k := Factor(a, b);
    var m := Factor(b, a);
    Order(a, k);
    Order(b, m);
  }

  /** `g` divides both numbers and is a combination of them: their greatest common divisor. */
  ghost predicate Gcd(g: int, a: int, b: int) {
    g > 0 && (exists k :: Prod(g, k) == a) && (exists k :: Prod(g, k) == b)
    && exists x, y :: Prod(a, x) + Prod(b, y) == g
  }

  function Prod(a: int, b: int): int { a * b }

  /** Multiplying by what the gcd leaves of the period gives the least common multiple. */
  lemma {:induction false} LcmByGcd(l: int, p: int, g: int)
    requires l > 0 && p > 0 && Gcd(g, l, p)
    ensures l * (p / g) > 0 && Divides(l, l * (p / g)) && Divides(p, l * (p / g))
    ensures forall m | Divides(l, m) && Divides(p, m) :: Divides(l * (p / g), m)
  {
    var i :| Prod(g, i) == l;
    var j :| Prod(g, j) == p;
    Multiple(g, j);
    assert p / g == j;
    Order(g, i);
    Order(g, j);
    Order(l, j);
    Multiple(l, j);
    assert l * j == p * i by { assert g * i * j == g * j * i; }
    Multiple(p, i);
    forall m | Divides(l, m) && Divides(p, m) ensures Divides(l * j, m) {
      CommonMultiple(l, p, g, j, m);
    }
  }

  lemma {:induction false} CommonMultiple(l: int, p: int, g: int, j: int, m: int)
    requires l > 0 && p > 0 && j > 0 && Gcd(g, l, p) && p == Prod(g, j) && Divides(l, m) && Divides(p, m) && l * j > 0
    ensures Divides(l * j, m)
  {
    var x, y :| Prod(l, x) + Prod(p, y) == g;
    var u := Factor(l, m);
    var v := Factor(p, m);
    Cross(l, p, g, j, m, x, y, u, v);
    Multiple(l * j, v * x + u * y);
  }

  lemma {:induction false} Cross(l: int, p: int, g: int, j: int, m: int, x: int, y: int, u: int, v: int)
    requires g > 0 && p == g * j && l * x + p * y == g && m == l * u && m == p * v
    ensures m == (l * j) * (v * x + u * y)
  {
    var w := v * x + u * y;
    Distribute(m, l * x, p * y);
    Regroup(p, v, l, x);
    Regroup(l, u, p, y);
    Regroup(p, l, v * x, 1);
    Distribute(l * p, v * x, u * y);
    assert m * g == (l * p) * w;
    Rotate(l, g, j, w);
    Cancel(m, (l * j) * w, g);
  }

  lemma Distribute(a: int, b: int, c: int)
    ensures a * (b + c) == a * b + a * c
  {}

  lemma Rotate(l: int, g: int, j: int, w: int)
    ensures (l * (g * j)) * w == ((l * j) * w) * g
  {
    assert l * (g * j) == (l * j) * g;
    assert ((l * j) * g) * w == ((l * j) * w) * g;
  }

  lemma Regroup(a: int, b: int, c: int, d: int)
    ensures (a * b) * (c * d) == (a * c) * (b * d) && a * c == c * a
  {
    assert (a * b) * (c * d) == a * (b * (c * d)) == a * (c * (b * d));
  }

  lemma Cancel(a: int, b: int, g: int)
    requires g > 0 && a * g == b * g
    ensures a == b
  {
    assert g * (a - b) == 0;
    Order(g, a - b);
  }

  /** `h` is the least common multiple of the periods: each divides it, and it divides every common multiple. */
  ghost predicate Hyperperiod(h: int, l: seq<Task>) {
    && h > 0
    && (forall i | 0 <= i < |l| :: l[i].period > 0 && Divides(l[i].period, h))
    && forall m | CommonPeriod(m, l) :: Divides(h, m)
  }

  ghost predicate CommonPeriod(m: int, l: seq<Task>) {
    forall i | 0 <= i < |l| :: l[i].period > 0 && Divides(l[i].period, m)
  }

  lemma HyperperiodOne(t: Task)
    requires t.period > 0
    ensures Hyperperiod(t.period, [t])
  {
    forall m | CommonPeriod(m, [t]) ensures Divides(t.period, m) {
      assert [t][0] == t;
    }
  }

  /** One more task. */
  lemma HyperperiodStep(h: int, l: seq<Task>, t: Task, h': int)
    requires Hyperperiod(h, l) && t.period > 0 && h' > 0 && Divides(h, h') && Divides(t.period, h')
    requires forall m | Divides(h, m) && Divides(t.period, m) :: Divides(h', m)
    ensures Hyperperiod(h', l + [t])
  {
    forall i | 0 <= i < |l + [t]| ensures (l + [t])[i].period > 0 && Divides((l + [t])[i].period, h') {
      if i < |l| {
        DividesTrans(l[i].period, h, h');
      }
    }
    forall m | CommonPeriod(m, l + [t]) ensures Divides(h', m) {
      assert (l + [t])[|l|] == t;
      assert CommonPeriod(m, l) by {
        assert forall i | 0 <= i < |l| :: (l + [t])[i] == l[i];
      }
    }
  }

  /** The hyperperiod does not depend on the order of the queue. */
  lemma HyperperiodUnique(h: int, k: int, a: seq<Task>, b: seq<Task>)
    requires Hyperperiod(h, a) && Hyperperiod(k, b) && multiset(a) == multiset(b)
    ensures h == k
  {
    SamePeriods(k, b, a);
    SamePeriods(h, a, b);
    DividesBoth(h, k);
  }

  lemma SamePeriods(h: int, a: seq<Task>, b: seq<Task>)
    requires CommonPeriod(h, a) && multiset(a) == multiset(b)
    ensures CommonPeriod(h, b)
  {
    forall i | 0 <= i < |b| ensures b[i].period > 0 && Divides(b[i].period, h) {
      assert b[i] in multiset(b);
      var k :| 0 <= k < |a| && a[k] == b[i];
    }
  }

  // ---------------------------------------------------------------- slots

  /** Slots taken before and after the deadline of the longest task, over a hyperperiod. */
  datatype Slots = Slots(head: int, tail: int)

  /** The share of one task next to `t0`, `h` being the number of periods of `t0` in a hyperperiod. */
  function Share(t: Task, t0: Task, h: int): Slots
    requires t.period > 0
  {
    if t == t0 then Slots(0, 0) else
      Slots(if t.deadline <= t0.deadline then h * t.wcet * t0.deadline / t.period else 0,
            h * t.wcet * (t0.period - t0.deadline) / t.period)
  }

  function Taken(l: seq<Task>, t0: Task, h: int): Slots
    requires AllAdmissible(l)
  {
    if l == [] then Slots(0, 0) else
      var s := Taken(l[..|l| - 1], t0, h);
      var x := Share(l[|l| - 1], t0, h);
      Slots(s.head + x.head, s.tail + x.tail)
  }

  /** What `t0` leaves free before its deadlines, and after them. */
  function Room(t0: Task, h: int): Slots { Slots(h * (t0.deadline - t0.wcet), h * (t0.period - t0.deadline)) }

  /** Head and tail both suffice. */
  ghost predicate Fits(l: seq<Task>, t0: Task, h: int)
    requires AllAdmissible(l)
  {
    Taken(l, t0, h).head <= Room(t0, h).head && Taken(l, t0, h).tail <= Room(t0, h).tail
  }

  lemma NonNegative(a: int, b: int)
    requires a >= 0 && b >= 0
    ensures a * b >= 0
  {}

  lemma Quotient(a: int, b: int)
    requires a >= 0 && b > 0
    ensures a / b >= 0
  {}

  lemma ShareNonNegative(t: Task, t0: Task, h: int)
    requires Admissible(t) && Admissible(t0) && h >= 0
    ensures Share(t, t0, h).head >= 0 && Share(t, t0, h).tail >= 0
  {
    NonNegative(h, t.wcet);
    NonNegative(h * t.wcet, t0.deadline);
    NonNegative(h * t.wcet, t0.period - t0.deadline);
    Quotient(h * t.wcet * t0.deadline, t.period);
    Quotient(h * t.wcet * (t0.period - t0.deadline), t.period);
  }

  /** The shares are the products divided by the period and rounded down; a later deadline takes nothing before it. */
  lemma ShareRoundsDown(t: Task, t0: Task, h: int)
    requires Admissible(t) && Admissible(t0) && t != t0
    ensures var s, n := Share(t, t0, h), h * t.wcet * t0.deadline;
            if t.deadline <= t0.deadline then t.period * s.head <= n < t.period * (s.head + 1) else s.head == 0
    ensures var s, n := Share(t, t0, h), h * t.wcet * (t0.period - t0.deadline);
            t.period * s.tail <= n < t.period * (s.tail + 1)
  {
    RoundsDown(h * t.wcet * t0.deadline, t.period);
    RoundsDown(h * t.wcet * (t0.period - t0.deadline), t.period);
  }

  lemma RoundsDown(a: int, b: int)
    requires b > 0
    ensures b * (a / b) <= a < b * (a / b + 1)
  {
    assert a == b * (a / b) + a % b;
  }

  // ---------------------------------------------------------------- slots without rounding

  datatype Load = Load(head: real, tail: real)

  /** What the tasks would take next to `t0` if no share was rounded. */
  function Unrounded(l: seq<Task>, t0: Task, h: int): Load
    requires AllAdmissible(l)
  {
    if l == [] then Load(0.0, 0.0) else
      var s, t := Unrounded(l[..|l| - 1], t0, h), l[|l| - 1];
      if t == t0 then s else
        Load(s.head + if t.deadline > t0.deadline then 0.0 else (t.wcet * h * t0.deadline) as real / t.period as real,
             s.tail + (t.wcet * h * (t0.period - t0.deadline)) as real / t.period as real)
  }

  lemma RealQuotient(a: int, b: int)
    requires b > 0
    ensures (a / b) as real <= a as real / b as real < (a / b) as real + 1.0
  {
    RoundsDown(a, b);
    var q := a / b;
    assert b * q == q * b && b * (q + 1) == (q + 1) * b;
    RealProduct(q, b);
    RealProduct(q + 1, b);
    AboveQuotient(a as real, q as real, b as real);
    BelowQuotient(a as real, (q + 1) as real, b as real);
  }

  lemma RealProduct(a: int, b: int)
    ensures (a * b) as real == a as real * b as real
  {}

  lemma AboveQuotient(x: real, q: real, y: real)
    requires y > 0.0 && q * y <= x
    ensures q <= x / y
  {
    var z := x / y;
    assert z * y == x;
    assert (q - z) * y <= 0.0;
  }

  lemma BelowQuotient(x: real, q: real, y: real)
    requires y > 0.0 && x < q * y
    ensures x / y < q
  {
    var z := x / y;
    assert z * y == x;
    assert (q - z) * y > 0.0;
  }

  lemma Commuted(a: int, b: int)
    ensures a * b == b * a
  {}

  /** Rounding takes less than a slot off for each task. */
  lemma {:induction false} TakenUnrounded(l: seq<Task>, t0: Task, h: int)
    requires AllAdmissible(l) && Admissible(t0)
    ensures var x, n := Unrounded(l, t0, h), Taken(l, t0, h);
            && n.head as real <= x.head <= (n.head + |l|) as real
            && n.tail as real <= x.tail <= (n.tail + |l|) as real
    decreases |l|
  {
    if l != [] {
      var m, t := l[..|l| - 1], l[|l| - 1];
      TakenUnrounded(m, t0, h);
      Commuted(t.wcet, h);
      RealQuotient(h * t.wcet * t0.deadline, t.period);
      RealQuotient(h * t.wcet * (t0.period - t0.deadline), t.period);
    }
  }

  /** More tasks take more slots. */
  lemma {:induction false} TakenGrows(l: seq<Task>, t0: Task, h: int, i: nat)
    requires AllAdmissible(l) && Admissible(t0) && h >= 0 && i <= |l|
    ensures Taken(l[..i], t0, h).head <= Taken(l, t0, h).head && Taken(l[..i], t0, h).tail <= Taken(l, t0, h).tail
    ensures Taken(l, t0, h).head >= 0 && Taken(l, t0, h).tail >= 0
    decreases |l|
  {
    if l != [] {
      ShareNonNegative(l[|l| - 1], t0, h);
      var m := l[..|l| - 1];
      TakenGrows(m, t0, h, if i < |l| then i else 0);
      if i < |l| {
        assert m[..i] == l[..i];
      } else {
        assert l[..i] == l;
      }
    }
  }

  lemma {:induction false} TakenConcat(a: seq<Task>, b: seq<Task>, t0: Task, h: int)
    requires AllAdmissible(a) && AllAdmissible(b)
    ensures AllAdmissible(a + b)
    ensures Taken(a + b, t0, h).head == Taken(a, t0, h).head + Taken(b, t0, h).head
    ensures Taken(a + b, t0, h).tail == Taken(a, t0, h).tail + Taken(b, t0, h).tail
    decreases |b|
  {
    hide Share;
    if b == [] {
      assert a + b == a;
    } else {
      assert (a + b)[..|a + b| - 1] == a + b[..|b| - 1];
      TakenConcat(a, b[..|b| - 1], t0, h);
    }
  }

  lemma TakenOne(t: Task, t0: Task, h: int)
    requires Admissible(t)
    ensures Taken([t], t0, h) == Share(t, t0, h)
  {
    assert [t][..0] == [];
    assert Taken([], t0, h) == Slots(0, 0);
  }

  lemma AdmissibleSame(a: seq<Task>, b: seq<Task>)
    requires AllAdmissible(a) && multiset(a) == multiset(b)
    ensures AllAdmissible(b)
  {
    forall i | 0 <= i < |b| ensures Admissible(b[i]) {
      assert b[i] in multiset(b);
      var k :| 0 <= k < |a| && a[k] == b[i];
    }
  }

  lemma Bags(m: seq<Task>, x: Task, c: seq<Task>, d: seq<Task>)
    requires multiset(m + [x]) == multiset(c + [x] + d)
    ensures multiset(m) == multiset(c + d)
  {
    assert multiset(m) == multiset(m + [x]) - multiset{x};
    assert multiset(c + d) == multiset(c + [x] + d) - multiset{x};
  }

  /** The slots taken do not depend on the order of the queue. */
  lemma {:induction false} TakenUnordered(a: seq<Task>, b: seq<Task>, t0: Task, h: int)
    requires AllAdmissible(a) && AllAdmissible(b) && multiset(a) == multiset(b)
    ensures Taken(a, t0, h) == Taken(b, t0, h)
    decreases |a|
  {
    hide Share, Taken, AllAdmissible;
    assert |a| == |multiset(a)| == |multiset(b)| == |b|;
    if a != [] {
      var m, x := a[..|a| - 1], a[|a| - 1];
      assert a == m + [x] == m + [x] + [];
      var c, d := PickOut(m, x, b);
      AdmissibleParts(m, x, []);
      TakenAround(c, x, d, t0, h);
      TakenUnordered(m, c + d, t0, h);
      TakenConcat(m, [x], t0, h);
    }
  }

  lemma PickOut(m: seq<Task>, x: Task, b: seq<Task>) returns (c: seq<Task>, d: seq<Task>)
    requires multiset(m + [x]) == multiset(b)
    ensures b == c + [x] + d && multiset(m) == multiset(c + d)
  {
    assert x in multiset(b);
    var k :| 0 <= k < |b| && b[k] == x;
    c, d := b[..k], b[k + 1..];
    assert b == c + [x] + d;
    Bags(m, x, c, d);
  }

  lemma {:induction false} TakenAround(c: seq<Task>, x: Task, d: seq<Task>, t0: Task, h: int)
    requires AllAdmissible(c + [x] + d)
    ensures AllAdmissible(c + d) && AllAdmissible([x])
    ensures Taken(c + [x] + d, t0, h).head == Taken(c + d, t0, h).head + Taken([x], t0, h).head
    ensures Taken(c + [x] + d, t0, h).tail == Taken(c + d, t0, h).tail + Taken([x], t0, h).tail
  {
    hide Share, Taken;
    AdmissibleParts(c, x, d);
    TakenConcat(c, d, t0, h);
    TakenConcat(c + [x], d, t0, h);
    TakenConcat(c, [x], t0, h);
  }

  lemma AdmissibleParts(c: seq<Task>, x: Task, d: seq<Task>)
    requires AllAdmissible(c + [x] + d)
    ensures AllAdmissible(c) && AllAdmissible(d) && AllAdmissible([x]) && AllAdmissible(c + [x]) && AllAdmissible(c + d)
  {
    var b := c + [x] + d;
    assert forall i | 0 <= i < |c| :: c[i] == b[i];
    assert forall i | 0 <= i < |d| :: d[i] == b[|c| + 1 + i];
    assert b[|c|] == x;
  }
}
