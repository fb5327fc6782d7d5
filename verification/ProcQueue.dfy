/**
 The node queue of a processing network (lib/data_proc_net.c, lib/data_proc_tracker.c): trackers in queue
 order, what they hold, and how moving them to the head or the tail of the queue rearranges it.
 */
module ProcQueue {
  import opened ProcTask
  import opened KernelList

  const NODE_IN: nat := 0xFFFFFFFF
  const NODE_OUT: nat := 0

  datatype Job = Job(id: int, steps: Steps, nmemb: int)

  /** A tracker; `id` stands for its address. */
  datatype Node = Node(id: nat, op: nat, crit: nat, tasks: seq<Job>, nTasks: int)

  /** Which task, and which chain of steps it was given. */
  datatype Key = Key(id: int, plan: seq<Step>)

  /** What a collection of tasks holds: pending steps, and the tasks themselves. */
  datatype Tally = Tally(steps: nat, keys: multiset<Key>)

  function Plus(a: Tally, b: Tally): Tally { Tally(a.steps + b.steps, a.keys + b.keys) }

  function Zero(): Tally { Tally(0, multiset{}) }

  function Of(t: Job): Tally { Tally(|t.steps.todo|, multiset{Key(t.id, Plan(t.steps))}) }

  function OfTasks(l: seq<Job>): Tally { if l == [] then Zero() else Plus(Of(l[0]), OfTasks(l[1..])) }

  function OfNodes(l: seq<Node>): Tally { if l == [] then Zero() else Plus(OfTasks(l[0].tasks), OfNodes(l[1..])) }

  lemma PlusLaws(a: Tally, b: Tally, c: Tally)
    ensures Plus(Plus(a, b), c) == Plus(a, Plus(b, c)) && Plus(a, b) == Plus(b, a) && Plus(Zero(), a) == a
    ensures Plus(Plus(a, b), c) == Plus(Plus(a, c), b)
  {}

  lemma {:induction false} OfTasksConcat(a: seq<Job>, b: seq<Job>)
    ensures OfTasks(a + b) == Plus(OfTasks(a), OfTasks(b))
  {
    hide Plus, Of, Zero;
    if a == [] {
      assert a + b == b;
      PlusLaws(OfTasks(b), Zero(), Zero());
    } else {
      assert (a + b)[1..] == a[1..] + b;
      OfTasksConcat(a[1..], b);
      PlusLaws(Of(a[0]), OfTasks(a[1..]), OfTasks(b));
    }
  }

  lemma {:induction false} OfNodesConcat(a: seq<Node>, b: seq<Node>)
    ensures OfNodes(a + b) == Plus(OfNodes(a), OfNodes(b))
  {
    hide Plus, OfTasks, Zero;
    if a == [] {
      assert a + b == b;
      PlusLaws(OfNodes(b), Zero(), Zero());
    } else {
      assert (a + b)[1..] == a[1..] + b;
      OfNodesConcat(a[1..], b);
      PlusLaws(OfTasks(a[0].tasks), OfNodes(a[1..]), OfNodes(b));
    }
  }

  lemma OfTask(t: Job)
    ensures OfTasks([t]) == Of(t)
  {
    assert [t][1..] == [];
    assert OfTasks([]) == Zero();
  }

  lemma OfNode(n: Node)
    ensures OfNodes([n]) == OfTasks(n.tasks)
  {
    assert [n][1..] == [];
    assert OfNodes([]) == Zero();
  }

  lemma PlusMid(a: Tally, x: Tally, b: Tally)
    ensures Plus(a, Plus(x, b)) == Plus(Plus(a, b), x)
  {
    PlusLaws(a, b, x);
    PlusLaws(x, b, a);
  }

  function Others(l: seq<Node>, i: nat): Tally
    requires i < |l|
  {
    Plus(OfNodes(l[..i]), OfNodes(l[i + 1..]))
  }

  /** One node apart from the others. */
  lemma OfNodesAt(l: seq<Node>, i: nat, n: Node)
    requires i < |l|
    ensures OfNodes(l) == Plus(Others(l, i), OfTasks(l[i].tasks))
    ensures OfNodes(l[i := n]) == Plus(Others(l, i), OfTasks(n.tasks))
  {
    hide Plus, OfTasks, OfNodes;
    OfNode(l[i]);
    OfNode(n);
    PlusMid(OfNodes(l[..i]), OfTasks(l[i].tasks), OfNodes(l[i + 1..]));
    PlusMid(OfNodes(l[..i]), OfTasks(n.tasks), OfNodes(l[i + 1..]));
    assert l == l[..i] + ([l[i]] + l[i + 1..]);
    assert l[i := n] == l[..i] + ([n] + l[i + 1..]);
    OfNodesConcat(l[..i], [l[i]] + l[i + 1..]);
    OfNodesConcat([l[i]], l[i + 1..]);
    OfNodesConcat(l[..i], [n] + l[i + 1..]);
    OfNodesConcat([n], l[i + 1..]);
  }

  // ---------------------------------------------------------------- trackers

  /** list_add_tail and the counter, as pt_track_put does them. */
  function Put(n: Node, t: Job): Node { n.(tasks := n.tasks + [t], nTasks := n.nTasks + 1) }

  function Got(n: Node): Node
    requires n.tasks != []
  {
    n.(tasks := n.tasks[1..], nTasks := n.nTasks - 1)
  }

  /** Tasks leave a tracker in the order in which they came. */
  lemma FirstInFirstOut(n: Node, t: Job)
    ensures Put(n, t).nTasks == n.nTasks + 1 && Put(n, t).op == n.op
    ensures n.tasks == [] ==> Put(n, t).tasks == [t] && Got(Put(n, t)) == n
    ensures n.tasks != [] ==> Put(n, t).tasks[0] == n.tasks[0] && Got(Put(n, t)) == Put(Got(n), t)
  {
    if n.tasks != [] {
      assert (n.tasks + [t])[1..] == n.tasks[1..] + [t];
    }
  }

  ghost predicate TaskOk(t: Job, op: nat) { WellFormed(t.steps) && PendOp(t.steps) == op }

  ghost predicate Counted(n: Node) { n.nTasks == |n.tasks| }

  /** The counter is right and every queued task waits for this node's operation. */
  ghost predicate NodeOk(n: Node) {
    Counted(n) && n.op != NODE_IN && n.op != NODE_OUT && n.crit >= 1 && forall t | t in n.tasks :: TaskOk(t, n.op)
  }

  ghost predicate QueueOk(l: seq<Node>) {
    (forall i | 0 <= i < |l| :: NodeOk(l[i])) && Distinct(l)
  }

  ghost predicate Distinct(l: seq<Node>) { forall i, j | 0 <= i < j < |l| :: l[i].id != l[j].id }

  function Ops(l: seq<Node>): set<nat> { set n | n in l :: n.op }

  lemma PutNode(l: seq<Node>, i: nat, t: Job)
    requires QueueOk(l) && i < |l| && TaskOk(t, l[i].op)
    ensures QueueOk(l[i := Put(l[i], t)]) && Ops(l[i := Put(l[i], t)]) == Ops(l)
    ensures OfNodes(l[i := Put(l[i], t)]) == Plus(OfNodes(l), Of(t))
  {
    hide Plus, OfNodes, OfTasks, Others, Of;
    OfNodesAt(l, i, Put(l[i], t));
    PlusLaws(Others(l, i), OfTasks(l[i].tasks), Of(t));
    OfTasksConcat(l[i].tasks, [t]);
    OfTask(t);
    SameOps(l, i, Put(l[i], t));
    assert NodeOk(l[i]);
  }

  lemma AddedNode(l: seq<Node>, n: Node)
    requires QueueOk(l) && NodeOk(n) && forall k | 0 <= k < |l| :: l[k].id != n.id
    ensures QueueOk(l + [n]) && OfNodes(l + [n]) == Plus(OfNodes(l), OfTasks(n.tasks))
  {
    hide Plus, OfNodes, OfTasks, NodeOk;
    OfNodesConcat(l, [n]);
    OfNode(n);
  }

  lemma GetNode(l: seq<Node>, i: nat)
    requires QueueOk(l) && i < |l| && l[i].tasks != []
    ensures QueueOk(l[i := Got(l[i])]) && Ops(l[i := Got(l[i])]) == Ops(l)
    ensures OfNodes(l) == Plus(OfNodes(l[i := Got(l[i])]), Of(l[i].tasks[0]))
    ensures TaskOk(l[i].tasks[0], l[i].op) && l[i].op != 0
  {
    hide Plus, OfNodes, Others, Of;
    OfNodesAt(l, i, Got(l[i]));
    PlusMid(Others(l, i), Of(l[i].tasks[0]), OfTasks(l[i].tasks[1..]));
    SameOps(l, i, Got(l[i]));
    assert NodeOk(l[i]);
  }

  lemma SameOps(l: seq<Node>, i: nat, n: Node)
    requires i < |l| && n.op == l[i].op
    ensures Ops(l[i := n]) == Ops(l)
  {
    var m := l[i := n];
    forall x | x in l ensures exists y :: y in m && y.op == x.op {
      var k :| 0 <= k < |l| && l[k] == x;
      assert m[k].op == x.op;
    }
    forall x | x in m ensures exists y :: y in l && y.op == x.op {
      var k :| 0 <= k < |m| && m[k] == x;
      assert l[k].op == x.op;
    }
  }

  // ---------------------------------------------------------------- rearranging the queue

  /** The same nodes in some other order. */
  ghost predicate Rearranged(a: seq<Node>, b: seq<Node>) {
    multiset(a) == multiset(b) && OfNodes(a) == OfNodes(b) && |a| == |b| && (Distinct(a) ==> Distinct(b))
  }

  lemma Swapped(a: seq<Node>, b: seq<Node>, c: seq<Node>)
    ensures Rearranged(a + b + c, b + a + c) && Rearranged(a + b + c, a + c + b)
  {
    hide Plus, OfNodes, Distinct;
    OfNodesConcat(a + b, c);
    OfNodesConcat(a, b);
    OfNodesConcat(b + a, c);
    OfNodesConcat(b, a);
    OfNodesConcat(a + c, b);
    OfNodesConcat(a, c);
    PlusLaws(OfNodes(a), OfNodes(b), OfNodes(c));
    DistinctConcat(a + b, c);
    DistinctConcat(a, b);
    DistinctConcat(b + a, c);
    DistinctConcat(b, a);
    DistinctConcat(a + c, b);
    DistinctConcat(a, c);
  }

  lemma DistinctConcat(a: seq<Node>, b: seq<Node>)
    ensures Distinct(a + b) <==> Distinct(a) && Distinct(b) && forall x, y | x in a && y in b :: x.id != y.id
  {
    var c := a + b;
    assert forall i | 0 <= i < |a| :: c[i] == a[i];
    assert forall i | 0 <= i < |b| :: c[|a| + i] == b[i];
    if Distinct(c) {
      forall x, y | x in a && y in b ensures x.id != y.id {
        var i :| 0 <= i < |a| && a[i] == x;
        var j :| 0 <= j < |b| && b[j] == y;
        assert c[i].id != c[|a| + j].id;
      }
    }
  }

  lemma RearrangedOk(a: seq<Node>, b: seq<Node>)
    requires Rearranged(a, b) && QueueOk(a)
    ensures QueueOk(b) && Ops(a) == Ops(b)
  {
    hide NodeOk, Distinct, OfNodes;
    assert forall x :: x in a <==> x in multiset(a);
    assert forall x :: x in b <==> x in multiset(b);
    forall i | 0 <= i < |b| ensures NodeOk(b[i]) {
      assert b[i] in multiset(b);
    }
  }

  function ToTail(l: seq<Node>, i: nat): seq<Node>
    requires i < |l|
  {
    l[..i] + l[i + 1..] + [l[i]]
  }

  function ToHead(l: seq<Node>, i: nat): seq<Node>
    requires i < |l|
  {
    [l[i]] + (l[..i] + l[i + 1..])
  }

  // ---------------------------------------------------------------- list pointers

  function Ids(l: seq<Node>): (ids: seq<nat>)
    ensures |ids| == |l| && forall i | 0 <= i < |l| :: ids[i] == l[i].id
  {
    seq(|l|, i requires 0 <= i < |l| => l[i].id)
  }

  function IndexOf(l: seq<Node>, id: int): (i: nat)
    ensures i <= |l|
  {
    IndexIn(Ids(l), id)
  }

  lemma IndexOfAt(l: seq<Node>, i: nat)
    requires Distinct(l) && i < |l|
    ensures IndexOf(l, l[i].id) == i
  {
    IndexInAt(Ids(l), i);
  }

  function NextOf(l: seq<Node>, id: int): int { After(Ids(l), id) }

  function FirstOf(l: seq<Node>): int { IdAt(l, 0) }

  function IdAt(l: seq<Node>, k: nat): int { IdOf(Ids(l), k) }

  predicate Critical(n: Node) { n.nTasks >= n.crit }

  /** Critical nodes, the last one first. */
  function CriticalFirst(l: seq<Node>): seq<Node> {
    if l == [] then [] else
      (if Critical(l[|l| - 1]) then [l[|l| - 1]] else []) + CriticalFirst(l[..|l| - 1])
  }

  function Uncritical(l: seq<Node>): seq<Node> {
    if l == [] then [] else
      Uncritical(l[..|l| - 1]) + (if Critical(l[|l| - 1]) then [] else [l[|l| - 1]])
  }

  /** What pn_queue_critical_trackers makes of the queue. */
  function Prioritised(l: seq<Node>): seq<Node> { CriticalFirst(l) + Uncritical(l) }

  lemma {:induction false} PrioritisedRearranges(l: seq<Node>)
    ensures Rearranged(l, Prioritised(l))
  {
    hide Rearranged;
    if l == [] {
      RearrangedSame(l);
    } else {
      var m, x := l[..|l| - 1], l[|l| - 1];
      PrioritisedRearranges(m);
      assert l == m + [x];
      RearrangedWith(m, Prioritised(m), [x]);
      if Critical(x) {
        Swapped(Prioritised(m), [x], []);
        assert Prioritised(l) == [x] + Prioritised(m) + [];
        assert Prioritised(m) + [x] + [] == Prioritised(m) + [x];
        RearrangedTwice(l, Prioritised(m) + [x], Prioritised(l));
      } else {
        assert Prioritised(l) == Prioritised(m) + [x];
      }
    }
  }

  /** Of two nodes, the one behind comes first exactly if it is critical. */
  lemma {:induction false} PrioritisedOrder(l: seq<Node>, i: nat, j: nat) returns (p: nat, q: nat)
    requires i < j < |l|
    ensures p < |Prioritised(l)| && Prioritised(l)[p] == l[i] && q < |Prioritised(l)| && Prioritised(l)[q] == l[j]
    ensures p != q && (q < p <==> l[j].nTasks >= l[j].crit)
    decreases |l|
  {
    hide Prioritised;
    var m, x := l[..|l| - 1], l[|l| - 1];
    PrioritisedStep(l);
    if j < |m| {
      p, q := PrioritisedOrder(m, i, j);
    } else {
      p := PlaceOf(m, i);
      q := |m|;
    }
    if Critical(x) {
      p, q := p + 1, if j < |m| then q + 1 else 0;
    }
  }

  lemma {:induction false} PrioritisedStep(l: seq<Node>)
    requires l != []
    ensures var m, x := l[..|l| - 1], l[|l| - 1];
            && |Prioritised(m)| == |m|
            && Prioritised(l) == if Critical(x) then [x] + Prioritised(m) else Prioritised(m) + [x]
  {
    PrioritisedLength(l[..|l| - 1]);
    PrioritisedSnoc(l[..|l| - 1], l[|l| - 1]);
    assert l == l[..|l| - 1] + [l[|l| - 1]];
    hide Prioritised;
  }

  lemma PrioritisedLength(l: seq<Node>)
    ensures |Prioritised(l)| == |l|
  {
    PrioritisedRearranges(l);
  }

  lemma PlaceOf(l: seq<Node>, i: nat) returns (p: nat)
    requires i < |l|
    ensures p < |Prioritised(l)| && Prioritised(l)[p] == l[i]
  {
    PrioritisedRearranges(l);
    assert l[i] in multiset(l);
    assert l[i] in Prioritised(l);
    p :| p < |Prioritised(l)| && Prioritised(l)[p] == l[i];
  }

  lemma RearrangedSame(a: seq<Node>)
    ensures Rearranged(a, a)
  {}

  lemma RearrangedTwice(a: seq<Node>, b: seq<Node>, c: seq<Node>)
    requires Rearranged(a, b) && Rearranged(b, c)
    ensures Rearranged(a, c)
  {}

  lemma RearrangedWith(a: seq<Node>, b: seq<Node>, c: seq<Node>)
    requires Rearranged(a, b)
    ensures Rearranged(a + c, b + c)
  {
    hide Plus, OfNodes, Distinct;
    OfNodesConcat(a, c);
    OfNodesConcat(b, c);
    DistinctConcat(a, c);
    DistinctConcat(b, c);
    forall y | y in b ensures y in a {
      assert y in multiset(b);
    }
  }

  /** A critical node, if there is any, comes first. */
  lemma {:induction false} CriticalLeads(l: seq<Node>)
    ensures (exists n :: n in l && Critical(n)) ==> CriticalFirst(l) != [] && Critical(CriticalFirst(l)[0])
  {
    if l != [] && !Critical(l[|l| - 1]) {
      CriticalLeads(l[..|l| - 1]);
      assert forall n | n in l && Critical(n) :: n in l[..|l| - 1];
    }
  }

  // ---------------------------------------------------------------- the loop that moves critical nodes

  /** The queue when its first `k` nodes have been visited. */
  function Visited(l: seq<Node>, k: nat): seq<Node>
    requires k <= |l|
  {
    Prioritised(l[..k]) + l[k..]
  }

  lemma LoopStart(l: seq<Node>)
    requires QueueOk(l)
    ensures Visited(l, 0) == l && FirstOf(l) == IdAt(l, 0) && (l != [] ==> NextOf(l, FirstOf(l)) == IdAt(l, 1))
  {
    assert Prioritised(l[..0]) == [];
    hide NodeOk;
    if l != [] {
      IndexOfAt(l, 0);
    }
  }

  lemma VisitedRearranges(l: seq<Node>, k: nat)
    requires QueueOk(l) && k <= |l|
    ensures Rearranged(l, Visited(l, k)) && QueueOk(Visited(l, k)) && |Prioritised(l[..k])| == k
            && |Visited(l, k)| == |l|
  {
    hide QueueOk, Prioritised, OfNodes;
    PrioritisedRearranges(l[..k]);
    assert l == l[..k] + l[k..];
    RearrangedWith(l[..k], Prioritised(l[..k]), l[k..]);
    RearrangedOk(l, Visited(l, k));
  }

  /** Visiting one more node: it is still behind the visited ones, and its successor is as it was. */
  lemma LoopStep(l: seq<Node>, k: nat)
    requires QueueOk(l) && k < |l|
    ensures var q := Visited(l, k);
            && IndexOf(q, l[k].id) == k < |q| && q[k] == l[k]
            && Visited(l, k + 1) == (if Critical(q[k]) then ToHead(q, k) else q)
            && (k + 1 < |l| ==> NextOf(Visited(l, k + 1), IdAt(l, k + 1)) == IdAt(l, k + 2))
  {
    hide Rearranged, NodeOk, Prioritised;
    VisitedRearranges(l, k);
    VisitedRearranges(l, k + 1);
    IndexOfAt(Visited(l, k), k);
    VisitOne(l, k);
    if k + 1 < |l| {
      IndexOfAt(Visited(l, k + 1), k + 1);
    }
  }

  lemma VisitOne(l: seq<Node>, k: nat)
    requires k < |l| && |Prioritised(l[..k])| == k
    ensures var q := Visited(l, k); Visited(l, k + 1) == if Critical(l[k]) then ToHead(q, k) else q
  {
    hide Prioritised, Critical;
    var q, m, x, t := Visited(l, k), l[..k], l[k], l[k + 1..];
    var p := Prioritised(m);
    assert l[k..] == [x] + t;
    assert q == p + ([x] + t);
    assert l[..k + 1] == m + [x];
    PrioritisedSnoc(m, x);
    Placed(p, x, t, k);
  }

  lemma Placed(p: seq<Node>, x: Node, t: seq<Node>, k: nat)
    requires |p| == k
    ensures ToHead(p + ([x] + t), k) == ([x] + p) + t && p + ([x] + t) == (p + [x]) + t
  {
    var q := p + ([x] + t);
    assert q[..k] == p && q[k] == x && q[k + 1..] == t;
  }

  lemma PrioritisedSnoc(m: seq<Node>, x: Node)
    ensures Prioritised(m + [x]) == if Critical(x) then [x] + Prioritised(m) else Prioritised(m) + [x]
  {
    var l := m + [x];
    assert l[..|l| - 1] == m;
  }

  lemma LoopEnd(l: seq<Node>)
    ensures Visited(l, |l|) == Prioritised(l)
  {
    assert l[..|l|] == l;
  }

  /** The queue turned so that `k` nodes went from its head to its tail. */
  function Turned(l: seq<Node>, k: nat): seq<Node>
    requires k <= |l|
  {
    l[k..] + l[..k]
  }

  lemma TurnedRearranges(l: seq<Node>, k: nat)
    requires k <= |l|
    ensures Rearranged(l, Turned(l, k))
  {
    hide Rearranged;
    assert l == [] + l[..k] + l[k..];
    Swapped([], l[..k], l[k..]);
    assert [] + l[k..] + l[..k] == Turned(l, k);
  }

  /** After `cnt` visits that found no task: the head is next, its successor is saved. */
  ghost predicate Scanning(q: seq<Node>, l: seq<Node>, cnt: nat, pos: int, nxt: int) {
    && |l| == |q| > 0 && cnt <= |q| + 1 && l == Turned(q, if cnt <= |q| then cnt else 1)
    && (forall i | 0 <= i < |q| && i < cnt :: q[i].tasks == [])
    && if cnt >= 1 && |q| == 1 then pos == HEAD else pos == l[0].id && nxt == IdAt(l, 1)
  }

  lemma ScanStart(q: seq<Node>)
    requires QueueOk(q) && q != []
    ensures Scanning(q, q, 0, FirstOf(q), NextOf(q, FirstOf(q)))
  {
    assert Turned(q, 0) == q;
    IndexOfAt(q, 0);
  }

  lemma ScanStep(q: seq<Node>, l: seq<Node>, cnt: nat, pos: int, nxt: int)
    requires QueueOk(q) && Scanning(q, l, cnt, pos, nxt) && pos != HEAD && cnt <= |q|
    ensures IndexOf(l, pos) < |l|
    ensures var l' := ToTail(l, IndexOf(l, pos));
            && |l'| == |l| > 0
            && (if l'[|l'| - 1].tasks == [] then Scanning(q, l', cnt + 1, nxt, NextOf(l', nxt))
                else cnt < |q| && l' == Turned(q, cnt + 1) && q[cnt].tasks != []
                     && forall i | 0 <= i < cnt :: q[i].tasks == [])
  {
    var k := if cnt < |q| then cnt else 0;
    assert l == Turned(q, k);
    TurnStep(q, k);
  }

  lemma ScanEnd(q: seq<Node>, l: seq<Node>, cnt: nat, pos: int, nxt: int)
    requires Scanning(q, l, cnt, pos, nxt) && (pos == HEAD || cnt > |q|)
    ensures l == Turned(q, 1) && forall i | 0 <= i < |q| :: q[i].tasks == []
  {}

  /** One more node goes from the head to the tail; the next one is then at the head. */
  lemma TurnStep(q: seq<Node>, k: nat)
    requires QueueOk(q) && k < |q|
    ensures var l := Turned(q, k); var m := Turned(q, k + 1);
            && |l| == |q| && l[0] == q[k] && IndexOf(l, l[0].id) == 0 && ToTail(l, 0) == m
            && |m| == |q| && m[|q| - 1] == q[k] && (|q| >= 2 ==> m[0] == l[1])
            && NextOf(m, m[0].id) == IdAt(m, 1)
  {
    hide NodeOk, Rearranged;
    var l, m := Turned(q, k), Turned(q, k + 1);
    TurnedRearranges(q, k);
    TurnedRearranges(q, k + 1);
    RearrangedOk(q, l);
    RearrangedOk(q, m);
    TurnedEnds(q, k);
    hide Turned;
    IndexOfAt(l, 0);
    IndexOfAt(m, 0);
  }

  lemma TurnedEnds(q: seq<Node>, k: nat)
    requires k < |q|
    ensures var l, m := Turned(q, k), Turned(q, k + 1);
            && |l| == |q| && l[0] == q[k] && ToTail(l, 0) == m
            && |m| == |q| && m[|q| - 1] == q[k] && (|q| >= 2 ==> m[0] == l[1])
  {
    var l, m := Turned(q, k), Turned(q, k + 1);
    assert l[..0] + l[1..] + [l[0]] == m;
  }

  /** The node that pn_get_next_pending_tracker picks is the first in priority order with a task. */
  ghost predicate Picked(l: seq<Node>, l': seq<Node>, j: nat) {
    && j < |Prioritised(l)| && l' == Turned(Prioritised(l), j + 1)
    && Prioritised(l)[j].tasks != [] && forall i | 0 <= i < j :: Prioritised(l)[i].tasks == []
  }

  /** Critical nodes have priority. */
  lemma CriticalPicked(l: seq<Node>, l': seq<Node>, j: nat)
    requires QueueOk(l) && Picked(l, l', j) && exists n :: n in l && n.nTasks >= n.crit
    ensures j == 0 && l'[|l'| - 1].nTasks >= l'[|l'| - 1].crit
  {
    CriticalLeads(l);
    PrioritisedRearranges(l);
    RearrangedOk(l, Prioritised(l));
    assert NodeOk(Prioritised(l)[0]);
    assert Critical(Prioritised(l)[0]);
    assert l'[|l'| - 1] == Prioritised(l)[j];
  }
}
