/**
 The data processing network of lib/data_proc_net.c. Operations are arbitrary: each call answers with some
 code from a given set and leaves the step list alone.
 */
module ProcNet {
  import opened ProcTask
  import opened ProcQueue
  import opened ProcTrace
  import opened KernelList

  const SUCCESS: int := 0
  const STOP: int := 1
  const DETACH: int := 2
  const RESCHED: int := 3
  const SORTSEQ: int := 4
  const DESTROY: int := 5

  /** Why a task was destroyed inside the network. */
  datatype Reason = NoSuchOp | InvalidReturn(ret: int)

  datatype Lost = Lost(task: Job, reason: Reason)

  ghost predicate Justified(x: Lost, ops: set<nat>) {
    match x.reason
    case NoSuchOp => PendOp(x.task.steps) !in ops
    case InvalidReturn(ret) => !(SUCCESS <= ret <= DESTROY)
  }

  /** Later losses, each with its reason. */
  ghost predicate Grown(was: seq<Lost>, now: seq<Lost>, ops: set<nat>) {
    |was| <= |now| && now[..|was|] == was && forall k | |was| <= k < |now| :: Justified(now[k], ops)
  }

  lemma GrownTwice(a: seq<Lost>, b: seq<Lost>, c: seq<Lost>, ops: set<nat>)
    requires Grown(a, b, ops) && Grown(b, c, ops)
    ensures Grown(a, c, ops)
  {
    forall k | |a| <= k < |c| ensures Justified(c[k], ops) {
      if k < |b| {
        assert c[..|b|][k] == b[k];
      }
    }
    assert c[..|a|] == c[..|b|][..|a|];
  }

  function Tasks(l: seq<Lost>): seq<Job> { if l == [] then [] else Tasks(l[..|l| - 1]) + [l[|l| - 1].task] }

  /** Input tasks for which there is no node, in order. */
  function Strays(tasks: seq<Job>, ops: set<nat>): seq<Lost> {
    if tasks == [] then [] else
      (if PendOp(tasks[0].steps) in ops then [] else [Lost(tasks[0], NoSuchOp)]) + Strays(tasks[1..], ops)
  }

  /** One step more is done, and the task went on to a node for the next one exactly if there is one. */
  ghost predicate Moved(task: Job, next: Job, at: int, ops: set<nat>) {
    var s := task.steps;
    && s.todo != [] && next == task.(steps := Steps(s.todo[1..], [s.todo[0]] + s.done, s.free))
    && (at == -1 <==> s.todo[1..] == [] || s.todo[1].op !in ops)
  }

  /** The task has gone through all its steps. */
  ghost predicate Finished(ret: int, next: Job) { (ret == SUCCESS || ret == STOP) && next.steps.todo == [] }

  /** It has not, and no node has its next op code. */
  ghost predicate Unknown(ret: int, next: Job, ops: set<nat>) {
    (ret == SUCCESS || ret == STOP) && next.steps.todo != [] && next.steps.todo[0].op !in ops
  }

  /**
   If no task is rescheduled, every operation called for a task is the one of its oldest pending step; if the operations
   succeed, none is left out.
   */
  ghost predicate Traced(log: seq<Call>, was: seq<Node>, calls: seq<Call>, l: seq<Node>, codes: set<int>) {
    && log <= calls
    && (RESCHED !in codes && SORTSEQ !in codes && Apart(OfNodes(was).keys) ==>
          Follows(log, was, calls, l, Ops(was), codes <= {SUCCESS, STOP}))
  }

  /** All calls are for the first node in priority order that holds a task, beginning with its oldest one. */
  ghost predicate Served(l: seq<Node>, j: nat, log: seq<Call>) {
    && j < |Prioritised(l)| && Prioritised(l)[j].tasks != [] && (forall i | 0 <= i < j :: Prioritised(l)[i].tasks == [])
    && log != [] && log[0].id == Prioritised(l)[j].tasks[0].id
    && forall k | 0 <= k < |log| :: log[k].op == Prioritised(l)[j].op
  }

  /** The calls behind `log` are for the tracker `head`, beginning with the task that was its oldest. */
  ghost predicate ForOp(log: seq<Call>, calls: seq<Call>, head: Node)
    requires head.tasks != []
  {
    && log <= calls && (forall k | |log| <= k < |calls| :: calls[k].op == head.op)
    && (|calls| > |log| ==> calls[|log|].id == head.tasks[0].id)
  }

  lemma ForOpNone(log: seq<Call>, head: Node)
    requires head.tasks != []
    ensures ForOp(log, log, head)
  {}

  lemma ForOpNext(log: seq<Call>, c: seq<Call>, calls: seq<Call>, head: Node)
    requires head.tasks != [] && ForOp(log, c, head) && |calls| == |c| + 1 && calls[..|c|] == c
    requires calls[|c|].op == head.op && (|c| == |log| ==> calls[|c|].id == head.tasks[0].id)
    ensures ForOp(log, calls, head)
  {
    assert forall k | 0 <= k < |c| :: calls[k] == c[k];
  }

  lemma ServedIs(was: seq<Node>, start: seq<Node>, j: nat, log: seq<Call>, calls: seq<Call>)
    requires start != [] && start[|start| - 1].tasks != [] && Picked(was, start, j)
    requires ForOp(log, calls, start[|start| - 1]) && |calls| > |log|
    ensures Served(was, j, calls[|log|..])
  {
    hide Prioritised;
    var q := Prioritised(was);
    assert start[|start| - 1] == q[j];
    var more := calls[|log|..];
    assert forall k | 0 <= k < |more| :: more[k] == calls[|log| + k];
  }

  lemma TracedSame(calls: seq<Call>, was: seq<Node>, l: seq<Node>, codes: set<int>)
    requires Rearranged(was, l)
    ensures Traced(calls, was, calls, l, codes)
  {
    hide OfNodes, Apart, Follows, Ops;
    SameNodes(was, l);
    if Apart(OfNodes(was).keys) {
      FollowsSame(calls, was, l, Ops(was), codes <= {SUCCESS, STOP});
    }
  }

  /** One call of an operation that answered `ret`. */
  lemma CallTraced(log: seq<Call>, was: seq<Node>, p: nat, l: seq<Node>, at: int, next: Job, codes: set<int>, ret: int)
    requires p < |was| && was[p].tasks != [] && was[p].op in Ops(was) && was[p].op != 0 && Passed(was, p, l, at, next)
    requires TaskOk(was[p].tasks[0], was[p].op)
    requires OfNodes(was).keys == OfNodes(was[p := Got(was[p])]).keys + Of(was[p].tasks[0]).keys
    requires OfNodes(l).keys <= OfNodes(was).keys && ret in codes
    requires ret == SUCCESS || ret == STOP ==> Moved(was[p].tasks[0], next, at, Ops(was))
    requires ret == RESCHED || ret == SORTSEQ || (at != -1 ==> ret == SUCCESS || ret == STOP)
    ensures Traced(log, was, log + [Call(was[p].tasks[0].id, was[p].op)], l, codes)
  {
    hide OfNodes, OfTasks, Ops, Of, Follows, Apart, Due, Passed, KeyOf;
    var t := was[p].tasks[0];
    OfKey(t);
    PendIs(t, was[p].op);
    NothingDue(t.steps.todo, Ops(was));
    if RESCHED !in codes && SORTSEQ !in codes && Apart(OfNodes(was).keys) {
      ApartSub(OfNodes(l).keys, OfNodes(was).keys);
      CallStep(log, was, p, l, at, next, Ops(was), codes <= {SUCCESS, STOP});
    }
  }

  lemma TracedTwice(log: seq<Call>, was: seq<Node>, mid: seq<Call>, l: seq<Node>, calls: seq<Call>, l': seq<Node>,
                    codes: set<int>)
    requires Traced(log, was, mid, l, codes) && Traced(mid, l, calls, l', codes)
    requires Ops(l) == Ops(was) && OfNodes(l).keys <= OfNodes(was).keys
    ensures Traced(log, was, calls, l', codes)
  {
    hide OfNodes, Apart, Follows, Ops;
    if RESCHED !in codes && SORTSEQ !in codes && Apart(OfNodes(was).keys) {
      ApartSub(OfNodes(l).keys, OfNodes(was).keys);
      FollowsTwice(log, was, mid, l, calls, l', Ops(was), codes <= {SUCCESS, STOP});
    }
  }

  /** With all nodes empty, what was called is what was due. */
  lemma TracedToEnd(log: seq<Call>, was: seq<Node>, calls: seq<Call>, l: seq<Node>, codes: set<int>, t: Job)
    requires Traced(log, was, calls, l, codes) && Apart(OfNodes(was).keys) && Idle(l) && Held(was, t)
    requires RESCHED !in codes && SORTSEQ !in codes
    ensures Log(calls, t.id) <= Log(log, t.id) + Due(t.steps.todo, Ops(was))
    ensures codes <= {SUCCESS, STOP} ==> Log(calls, t.id) == Log(log, t.id) + Due(t.steps.todo, Ops(was))
  {
    hide OfNodes, Apart, Ops;
    var ops := Ops(was);
    DueOfHeld(was, ops, t);
    NotDue(l, ops, t.id);
    assert Course(calls, l, ops, t.id) <= Course(log, was, ops, t.id);
    assert Log(calls, t.id) + [] == Log(calls, t.id);
  }

  lemma AllTraced(log: seq<Call>, was: seq<Node>, calls: seq<Call>, l: seq<Node>, codes: set<int>)
    requires Traced(log, was, calls, l, codes) && Idle(l) && RESCHED !in codes && SORTSEQ !in codes
    ensures log <= calls
    ensures forall t | Apart(OfNodes(was).keys) && Held(was, t) ::
              && Log(calls, t.id) <= Log(log, t.id) + Due(t.steps.todo, Ops(was))
              && (codes <= {SUCCESS, STOP} ==> Log(calls, t.id) == Log(log, t.id) + Due(t.steps.todo, Ops(was)))
  {
    hide OfNodes, Apart, Ops, Held, Due;
    if Apart(OfNodes(was).keys) {
      forall t | Held(was, t)
        ensures Log(calls, t.id) <= Log(log, t.id) + Due(t.steps.todo, Ops(was))
        ensures codes <= {SUCCESS, STOP} ==> Log(calls, t.id) == Log(log, t.id) + Due(t.steps.todo, Ops(was))
      {
        TracedToEnd(log, was, calls, l, codes, t);
      }
    }
  }

  /** No node holds a task. */
  ghost predicate Idle(l: seq<Node>) { forall x | x in l :: x.tasks == [] }

  class Net {
    var nodes: seq<Node>
    var n: nat
    var input: Node
    var output: Node
    var lost: seq<Lost>      // tasks destroyed
    var detached: seq<Job>   // tasks an operation took over
    var consumed: seq<Job>   // tasks handed to the output operation
    ghost var calls: seq<Call>   // operations called

    ghost predicate Valid()
      reads this
    {
      && QueueOk(nodes) && n == |nodes|
      && Counted(input) && input.op == NODE_IN && (forall t | t in input.tasks :: WellFormed(t.steps))
      && Counted(output) && output.op == NODE_OUT && (forall t | t in output.tasks :: TaskOk(t, NODE_OUT))
    }

    /** Every task the network ever took in, wherever it is now, with its chain of steps. */
    ghost function Census(): multiset<Key>
      reads this
    {
      OfTasks(input.tasks).keys + OfNodes(nodes).keys + Left()
    }

    /** The tasks that have left the nodes. */
    ghost function Left(): multiset<Key>
      reads this`output, this`lost, this`detached, this`consumed
    {
      OfTasks(output.tasks).keys + OfTasks(Tasks(lost)).keys + OfTasks(detached).keys + OfTasks(consumed).keys
    }

    /** pn_create. */
    constructor ()
      ensures Valid() && nodes == [] && Census() == multiset{}
    {
      nodes, n, lost, detached, consumed, calls := [], 0, [], [], [], [];
      input, output := Node(0, NODE_IN, 1, [], 0), Node(0, NODE_OUT, 1, [], 0);
    }

    /** pn_add_node. */
    method AddNode(pt: Node) returns (r: int)
      requires Valid() && Counted(pt) && pt.crit >= 1 && forall t | t in pt.tasks :: TaskOk(t, pt.op)
      requires forall k | 0 <= k < |nodes| :: nodes[k].id != pt.id
      modifies this
      ensures Valid() && Census() == old(Census()) + if r == 0 then OfTasks(pt.tasks).keys else multiset{}
      ensures r == if pt.op == NODE_IN || pt.op == NODE_OUT then -EINVAL else 0
      ensures nodes == if r == 0 then old(nodes) + [pt] else old(nodes)
    {
      hide QueueOk, OfNodes, OfTasks;
      if pt.op == NODE_IN {
        return -EINVAL;
      }
      if pt.op == NODE_OUT {
        return -EINVAL;
      }
      AddedNode(nodes, pt);
      PlusSums(OfNodes(nodes), OfTasks(pt.tasks));
      nodes := nodes + [pt];
      n := n + 1;
      return 0;
    }

    /** pn_input_task. */
    method InputTask(t: Job)
      requires Valid() && WellFormed(t.steps)
      modifies this`input
      ensures Valid() && input == Put(old(input), t) && Census() == old(Census()) + multiset{Key(t.id, Plan(t.steps))}
    {
      OfTasksConcat(input.tasks, [t]);
      OfTask(t);
      input := Put(input, t);
    }

    /** pn_find_tracker. */
    method FindTracker(op: nat) returns (i: int)
      ensures i == -1 <==> op !in Ops(nodes)
      ensures i != -1 ==> 0 <= i < |nodes| && nodes[i].op == op && forall k | 0 <= k < i :: nodes[k].op != op
    {
      i := 0;
      while i < |nodes|
        invariant 0 <= i <= |nodes| && forall k | 0 <= k < i :: nodes[k].op != op
      {
        if nodes[i].op == op {
          assert nodes[i] in nodes;
          return;
        }
        i := i + 1;
      }
      return -1;
    }

    /** pt_destroy, with the reason. */
    method Destroy(t: Job, reason: Reason)
      requires Justified(Lost(t, reason), Ops(nodes))
      modifies this`lost
      ensures Left() == old(Left()) + Of(t).keys && Grown(old(lost), lost, Ops(nodes))
      ensures lost == old(lost) + [Lost(t, reason)]
    {
      hide OfNodes, OfTasks, Plus, Ops;
      ghost var was := lost;
      lost := lost + [Lost(t, reason)];
      assert lost[..|lost| - 1] == was;
      OfTasksConcat(Tasks(was), [t]);
      OfTask(t);
      PlusSums(OfTasks(Tasks(was)), Of(t));
    }

    /** pn_task_to_next_node: to the output, to a node with the pending op code, or away if there is none. */
    method TaskToNextNode(t: Job) returns (r: int, ghost at: int)
      requires Valid() && WellFormed(t.steps) && nodes != []
      modifies this`nodes, this`output, this`lost
      ensures Valid() && Ops(nodes) == Ops(old(nodes)) && |nodes| == |old(nodes)| && Grown(old(lost), lost, Ops(nodes))
      ensures OfNodes(nodes).keys + Left() == old(OfNodes(nodes).keys + Left()) + Of(t).keys
      ensures OfNodes(nodes).steps <= old(OfNodes(nodes).steps) + |t.steps.todo|
      ensures r == if t.steps.todo == [] || PendOp(t.steps) in Ops(nodes) then 0 else -1
      ensures t.steps.todo == [] ==> output == Put(old(output), t) && nodes == old(nodes)
      ensures t.steps.todo == [] ==> lost == old(lost)
      ensures r == -1 ==> nodes == old(nodes) && output == old(output) && lost == old(lost) + [Lost(t, NoSuchOp)]
      ensures at == -1 <==> t.steps.todo == [] || r == -1
      ensures at != -1 ==> output == old(output) && lost == old(lost)
      ensures at != -1 ==> 0 <= at < |nodes| && nodes[at].op == PendOp(t.steps)
      ensures at != -1 ==> forall k | 0 <= k < at :: nodes[k].op != nodes[at].op
      ensures at != -1 ==> nodes == old(nodes)[at := Put(old(nodes)[at], t)]
      ensures OfNodes(nodes).keys <= old(OfNodes(nodes).keys) + Of(t).keys
    {
      hide QueueOk, Plus, OfNodes, OfTasks, Ops;
      var op := PendOp(t.steps);
      if op == 0 {
        OfTasksConcat(output.tasks, [t]);
        OfTask(t);
        PlusSums(OfTasks(output.tasks), Of(t));
        output := Put(output, t);
        return 0, -1;
      }
      var i := Deliver(t, 0);
      return if i == -1 then -1 else 0, i;
    }

    /** The task goes to the node `at` if that has its op code, otherwise to the first that has, or is destroyed. */
    method Deliver(t: Job, at: int) returns (i: int)
      requires QueueOk(nodes) && WellFormed(t.steps) && 0 <= at < |nodes|
      modifies this`nodes, this`lost
      ensures QueueOk(nodes) && Ops(nodes) == Ops(old(nodes)) && |nodes| == |old(nodes)|
      ensures Grown(old(lost), lost, Ops(nodes))
      ensures OfNodes(nodes).keys + Left() == old(OfNodes(nodes).keys + Left()) + Of(t).keys
      ensures OfNodes(nodes).steps <= old(OfNodes(nodes).steps) + |t.steps.todo|
      ensures i == -1 <==> PendOp(t.steps) !in Ops(nodes)
      ensures i == -1 ==> nodes == old(nodes) && lost == old(lost) + [Lost(t, NoSuchOp)]
      ensures i != -1 ==> 0 <= i < |nodes| && nodes[i].op == PendOp(t.steps) && lost == old(lost)
      ensures i != -1 ==> nodes == old(nodes)[i := Put(old(nodes)[i], t)]
      ensures i != -1 ==> i == at || forall k | 0 <= k < i :: nodes[k].op != nodes[i].op
      ensures OfNodes(nodes).keys <= old(OfNodes(nodes).keys) + Of(t).keys
    {
      hide QueueOk, Plus, OfNodes, OfTasks, Ops;
      var op := PendOp(t.steps);
      i := at;
      OpAt(nodes, at);
      if nodes[at].op != op {
        i := FindTracker(op);
        if i == -1 {
          Destroy(t, NoSuchOp);
          return;
        }
      }
      PutNode(nodes, i, t);
      PlusSums(OfNodes(nodes), Of(t));
      nodes := nodes[i := Put(nodes[i], t)];
    }

    /** pn_queue_critical_trackers, with the loop's saved next pointer. */
    method QueueCriticalTrackers()
      requires Valid()
      modifies this`nodes
      ensures Valid() && nodes == Prioritised(old(nodes)) && Rearranged(old(nodes), nodes)
    {
      hide QueueOk, Rearranged, Prioritised, CriticalFirst, Uncritical, NextOf, OfNodes, Visited, ToHead, IndexOf;
      hide Critical;
      ghost var l := nodes;
      ghost var k := 0;
      var pos := FirstOf(nodes);
      var nxt := NextOf(nodes, pos);
      LoopStart(l);
      while pos != HEAD
        invariant 0 <= k <= |l| && nodes == Visited(l, k)
        invariant pos == IdAt(l, k) && (pos != HEAD ==> nxt == IdAt(l, k + 1))
        decreases |l| - k
      {
        LoopStep(l, k);
        if Critical(nodes[IndexOf(nodes, pos)]) {
          nodes := ToHead(nodes, IndexOf(nodes, pos));
        }
        pos := nxt;
        nxt := NextOf(nodes, nxt);
        k := k + 1;
      }
      LoopEnd(l);
      VisitedRearranges(l, |l|);
    }

    /** The loop of pn_get_next_pending_tracker, which moves nodes to the tail while it visits them. */
    method ScanQueue() returns (found: bool, ghost j: nat)
      requires QueueOk(nodes) && nodes != [] && n == |nodes|
      modifies this`nodes
      ensures found ==> j < |old(nodes)| && nodes == Turned(old(nodes), j + 1) && old(nodes)[j].tasks != []
      ensures found ==> forall i | 0 <= i < j :: old(nodes)[i].tasks == []
      ensures !found ==> nodes == Turned(old(nodes), 1) && forall i | 0 <= i < |old(nodes)| :: old(nodes)[i].tasks == []
    {
      hide QueueOk, NextOf, IndexOf, Turned, ToTail, Scanning;
      ghost var q := nodes;
      var cnt := 0;
      var pos := FirstOf(nodes);
      var nxt := NextOf(nodes, pos);
      ScanStart(q);
      while pos != HEAD
        invariant 0 <= cnt <= |q| + 1 && Scanning(q, nodes, cnt, pos, nxt)
        decreases |q| + 1 - cnt
      {
        if cnt > n {
          break;
        }
        ScanStep(q, nodes, cnt, pos, nxt);
        cnt := cnt + 1;
        nodes := ToTail(nodes, IndexOf(nodes, pos));
        if nodes[|nodes| - 1].tasks != [] {
          return true, cnt - 1;
        }
        pos := nxt;
        nxt := NextOf(nodes, nxt);
      }
      ScanEnd(q, nodes, cnt, pos, nxt);
      return false, 0;
    }

    /** pn_get_next_pending_tracker: the node found is then the last of the queue. */
    method GetNextPendingTracker() returns (found: bool, ghost j: nat)
      requires Valid()
      modifies this`nodes
      ensures Valid() && Rearranged(old(nodes), nodes)
      ensures found ==> Picked(old(nodes), nodes, j) && nodes != [] && nodes[|nodes| - 1].tasks != []
      ensures !found <==> Idle(old(nodes))
      ensures !found && nodes != [] ==> nodes == Turned(Prioritised(old(nodes)), 1)
    {
      hide QueueOk, Rearranged, Prioritised, OfNodes;
      ghost var was := nodes;
      if nodes == [] {
        RearrangedSame(nodes);
        return false, 0;
      }
      QueueCriticalTrackers();
      ghost var q := nodes;
      SameNodes(was, q);
      found, j := ScanQueue();
      assert found ==> q[j] in q;
      AfterTurn(was, q, if found then j + 1 else 1);
    }

    method Detach(t: Job)
      modifies this`detached
      ensures Left() == old(Left()) + Of(t).keys && detached == old(detached) + [t]
    {
      hide OfTasks, Plus;
      OfTasksConcat(detached, [t]);
      OfTask(t);
      PlusSums(OfTasks(detached), Of(t));
      detached := detached + [t];
    }

    /**
     pn_eval_task_status for a task just taken from the node `p`: may this node go on? Where the task is put into a
     node, `at` is that one, and `next` is the task then.
     */
    method EvalTaskStatus(p: int, task: Job, ret: int) returns (go: bool, ghost at: int, ghost next: Job)
      requires Valid() && 0 <= p < |nodes| && TaskOk(task, nodes[p].op) && nodes[p].op != 0
      modifies this`nodes, this`output, this`lost, this`detached
      ensures Valid() && Ops(nodes) == Ops(old(nodes)) && |nodes| == |old(nodes)| && Grown(old(lost), lost, Ops(nodes))
      ensures OfNodes(nodes).keys + Left() == old(OfNodes(nodes).keys + Left()) + Of(task).keys
      ensures OfNodes(nodes).keys <= old(OfNodes(nodes).keys) + Of(task).keys
      ensures OfNodes(nodes).steps <= old(OfNodes(nodes).steps) + |task.steps.todo|
      ensures go || (ret != RESCHED && ret != SORTSEQ) ==>
                OfNodes(nodes).steps < old(OfNodes(nodes).steps) + |task.steps.todo|
      ensures go <==> ret != STOP && ret != RESCHED && ret != SORTSEQ
      ensures ret == SUCCESS || ret == STOP ==> Moved(task, next, at, Ops(nodes))
      ensures ret == RESCHED || ret == SORTSEQ ==> at == p && next == task
      ensures ret == DESTROY ==> at == -1 && output == Put(old(output), task.(steps := AllDone(task.steps), nmemb := 0))
      ensures ret == DETACH || !(SUCCESS <= ret <= DESTROY) ==> at == -1
      ensures at == -1 ==> nodes == old(nodes)
      ensures at != -1 ==> 0 <= at < |nodes| && nodes == old(nodes)[at := Put(old(nodes)[at], next)]
      ensures next.id == task.id && (at != -1 ==> nodes[at].op == PendOp(next.steps))
      ensures ret != DESTROY ==>
                output == if Finished(ret, next) then Put(old(output), next) else old(output)
      ensures detached == (if ret == DETACH then old(detached) + [task] else old(detached))
      ensures SUCCESS <= ret <= DESTROY ==>
                lost == old(lost) + if Unknown(ret, next, Ops(nodes)) then [Lost(next, NoSuchOp)] else []
      ensures !(SUCCESS <= ret <= DESTROY) ==> lost == old(lost) + [Lost(task, InvalidReturn(ret))]
    {
      hide QueueOk, Plus, OfNodes, OfTasks, Ops, AllDone, NextDone, Plan, Grown, Left;
      GrownNone(lost, Ops(nodes));
      var t := task;
      at, next := -1, task;
      if ret == SUCCESS || ret == STOP {
        NextDoneKeeps(t.steps);
        NextDoneIs(t.steps);
        t := t.(steps := NextDone(t.steps));
        var r;
        r, at := TaskToNextNode(t);
        return ret == SUCCESS, at, t;
      } else if ret == DETACH {
        Detach(t);
        return true, at, next;
      } else if ret == RESCHED || ret == SORTSEQ {
        PutNode(nodes, p, t);
        PlusSums(OfNodes(nodes), Of(t));
        nodes := nodes[p := Put(nodes[p], t)];
        return false, p, t;
      } else if ret == DESTROY {
        AllDoneKeeps(t.steps);
        t := t.(steps := AllDone(t.steps), nmemb := 0);
        EmptyTodo(task.steps);
        var r;
        r, at := TaskToNextNode(t);
        return true, at, t;
      } else {
        Destroy(t, InvalidReturn(ret));
        return true, at, next;
      }
    }

    /** Some operation's return code. */
    method Answer(codes: set<int>) returns (ret: int)
      requires exists c :: c in codes
      ensures ret in codes
    {
      ret :| ret in codes;
    }

    /** pn_process_next, the operations answering with codes from `codes`. */
    method ProcessNext(codes: set<int>) returns (cnt: nat)
      requires Valid() && exists c :: c in codes
      modifies this`nodes, this`output, this`lost, this`detached, this`calls
      ensures Valid() && Ops(nodes) == Ops(old(nodes)) && Grown(old(lost), lost, Ops(nodes))
      ensures Census() == old(Census())
      ensures |calls| == |old(calls)| + cnt && OfNodes(nodes).keys <= old(OfNodes(nodes).keys)
      ensures Traced(old(calls), old(nodes), calls, nodes, codes)
      ensures cnt == 0 <==> Idle(old(nodes))
      ensures cnt == 0 ==> Rearranged(old(nodes), nodes)
      ensures cnt == 0 ==> output == old(output) && lost == old(lost) && detached == old(detached)
      ensures OfNodes(nodes).steps <= old(OfNodes(nodes).steps)
      ensures DETACH !in codes ==> detached == old(detached)
      ensures cnt > 0 && RESCHED !in codes && SORTSEQ !in codes ==> OfNodes(nodes).steps < old(OfNodes(nodes).steps)
      ensures cnt > 0 ==> exists j: nat :: Served(old(nodes), j, calls[|old(calls)|..])
      ensures cnt > 0 && STOP !in codes && RESCHED !in codes && SORTSEQ !in codes ==>
                nodes != [] && nodes[|nodes| - 1].tasks == []
    {
      hide QueueOk, Plus, OfNodes, OfTasks, Ops, Rearranged, Picked, Grown, Of, Idle, TaskOk, NodeOk, Traced, ForOp;
      hide Served;
      ghost var was, log := nodes, calls;
      cnt := 0;
      var found;
      ghost var j;
      found, j := GetNextPendingTracker();
      SameTally(was, nodes);
      GrownNone(lost, Ops(nodes));
      TracedSame(calls, was, nodes, codes);
      if !found {
        return;
      }
      ghost var start := nodes;
      cnt := ProcessNode(|nodes| - 1, codes);
      TracedTwice(log, was, log, start, calls, nodes, codes);
      ServedIs(was, start, j, log, calls);
    }

    /** The loop of pn_process_next over the tasks of the node `p`. */
    method ProcessNode(p: int, codes: set<int>) returns (cnt: nat)
      requires Valid() && 0 <= p < |nodes| && nodes[p].tasks != [] && exists c :: c in codes
      modifies this`nodes, this`output, this`lost, this`detached, this`calls
      ensures Valid() && |nodes| == |old(nodes)| && Ops(nodes) == Ops(old(nodes)) && Grown(old(lost), lost, Ops(nodes))
      ensures Census() == old(Census()) && cnt > 0 && |calls| == |old(calls)| + cnt
      ensures OfNodes(nodes).keys <= old(OfNodes(nodes).keys) && OfNodes(nodes).steps <= old(OfNodes(nodes).steps)
      ensures DETACH !in codes ==> detached == old(detached)
      ensures RESCHED !in codes && SORTSEQ !in codes ==> OfNodes(nodes).steps < old(OfNodes(nodes).steps)
      ensures STOP !in codes && RESCHED !in codes && SORTSEQ !in codes ==> nodes[p].tasks == []
      ensures Traced(old(calls), old(nodes), calls, nodes, codes) && ForOp(old(calls), calls, old(nodes)[p])
    {
      hide QueueOk, Plus, OfNodes, OfTasks, Ops, Grown, Of, TaskOk, NodeOk, Traced, ForOp;
      ghost var was, before, log := nodes, lost, calls;
      cnt := 0;
      GrownNone(lost, Ops(nodes));
      RearrangedSame(nodes);
      TracedSame(calls, nodes, nodes, codes);
      ForOpNone(calls, nodes[p]);
      while true
        invariant Valid() && |nodes| == |was| && Ops(nodes) == Ops(was) && Grown(before, lost, Ops(was))
        invariant Census() == old(Census()) && OfNodes(nodes).keys <= OfNodes(was).keys
        invariant DETACH !in codes ==> detached == old(detached)
        invariant if cnt == 0 then nodes == was else OfNodes(nodes).steps < OfNodes(was).steps
        invariant |calls| == |log| + cnt && Traced(log, was, calls, nodes, codes)
        invariant nodes[p].op == was[p].op && ForOp(log, calls, was[p])
        decreases OfNodes(nodes).steps
      {
        if nodes[p].tasks == [] {
          break;
        }
        cnt := cnt + 1;
        ghost var mid, l, c := lost, nodes, calls;
        var go := ProcessTask(p, codes);
        GrownTwice(before, mid, lost, Ops(was));
        TracedTwice(log, was, c, l, calls, nodes, codes);
        ForOpNext(log, c, calls, was[p]);
        if !go {
          break;
        }
      }
    }

    /** One turn of pn_process_next: the oldest task of the node `p` is taken, executed and passed on. */
    method ProcessTask(p: int, codes: set<int>) returns (go: bool)
      requires Valid() && 0 <= p < |nodes| && nodes[p].tasks != [] && exists c :: c in codes
      modifies this`nodes, this`output, this`lost, this`detached, this`calls
      ensures Valid() && |nodes| == |old(nodes)| && Ops(nodes) == Ops(old(nodes)) && Grown(old(lost), lost, Ops(nodes))
      ensures Census() == old(Census()) && OfNodes(nodes).steps <= old(OfNodes(nodes).steps)
      ensures go || (RESCHED !in codes && SORTSEQ !in codes) ==> OfNodes(nodes).steps < old(OfNodes(nodes).steps)
      ensures DETACH !in codes ==> detached == old(detached)
      ensures STOP !in codes && RESCHED !in codes && SORTSEQ !in codes ==> go
      ensures forall i | 0 <= i < |nodes| :: nodes[i].op == old(nodes)[i].op
      ensures calls == old(calls) + [Call(old(nodes)[p].tasks[0].id, old(nodes)[p].op)]
      ensures OfNodes(nodes).keys <= old(OfNodes(nodes).keys)
      ensures Traced(old(calls), old(nodes), calls, nodes, codes)
    {
      hide QueueOk, Plus, OfNodes, OfTasks, Ops, Grown, Of, Traced, TaskOk, Left, Moved;
      ghost var was, log := nodes, calls;
      var t := TakeTask(p);
      ghost var kept, gone := OfNodes(nodes).keys, Left();
      var ret := Answer(codes);
      calls := calls + [Call(t.id, nodes[p].op)];
      ghost var at, next;
      go, at, next := EvalTaskStatus(p, t, ret);
      BagMove(OfTasks(input.tasks).keys, OfNodes(was).keys, kept, gone, Of(t).keys, OfNodes(nodes).keys, Left());
      CallTraced(log, was, p, nodes, at, next, codes, ret);
    }

    /** The oldest task of the node `p`, which was waiting for its operation. */
    method TakeTask(p: int) returns (t: Job)
      requires Valid() && 0 <= p < |nodes| && nodes[p].tasks != []
      modifies this`nodes
      ensures Valid() && nodes == old(nodes)[p := Got(old(nodes)[p])] && Ops(nodes) == Ops(old(nodes))
      ensures t == old(nodes)[p].tasks[0] && TaskOk(t, nodes[p].op) && nodes[p].op != 0 && nodes[p].op in Ops(nodes)
      ensures OfNodes(old(nodes)).keys == OfNodes(nodes).keys + Of(t).keys
      ensures OfNodes(old(nodes)).steps == OfNodes(nodes).steps + |t.steps.todo|
    {
      hide QueueOk, Plus, OfNodes, OfTasks, Ops, Of;
      t := nodes[p].tasks[0];
      GetNode(nodes, p);
      PlusSums(OfNodes(nodes[p := Got(nodes[p])]), Of(t));
      OfSteps(t);
      OpAt(nodes, p);
      nodes := nodes[p := Got(nodes[p])];
    }

    /** pn_process_next again and again until it returns 0. */
    method Drain(codes: set<int>)
      requires Valid() && RESCHED !in codes && SORTSEQ !in codes && exists c :: c in codes
      modifies this`nodes, this`output, this`lost, this`detached, this`calls
      ensures Valid() && Ops(nodes) == Ops(old(nodes)) && Grown(old(lost), lost, Ops(nodes))
      ensures Idle(nodes) && OfNodes(nodes).keys == multiset{}
      ensures Left() == old(Left()) + old(OfNodes(nodes).keys)
      ensures DETACH !in codes ==> detached == old(detached)
      ensures old(calls) <= calls
      ensures forall t | Apart(old(OfNodes(nodes).keys)) && Held(old(nodes), t) ::
                && Log(calls, t.id) <= Log(old(calls), t.id) + Due(t.steps.todo, Ops(nodes))
                && (codes <= {SUCCESS, STOP} ==>
                      Log(calls, t.id) == Log(old(calls), t.id) + Due(t.steps.todo, Ops(nodes)))
    {
      hide QueueOk, OfTasks, OfNodes, Zero, Ops, Grown, Idle, Rearranged, Traced, Apart, Held, Due;
      ghost var was, before, log := nodes, lost, calls;
      GrownNone(lost, Ops(nodes));
      RearrangedSame(nodes);
      TracedSame(calls, nodes, nodes, codes);
      while true
        invariant OfNodes(nodes).keys <= OfNodes(was).keys && Traced(log, was, calls, nodes, codes)
        invariant Valid() && Ops(nodes) == Ops(was) && Grown(before, lost, Ops(was)) && Census() == old(Census())
        invariant DETACH !in codes ==> detached == old(detached)
        decreases OfNodes(nodes).steps
      {
        ghost var l, mid, c := nodes, lost, calls;
        var cnt := ProcessNext(codes);
        GrownTwice(before, mid, lost, Ops(was));
        TracedTwice(log, was, c, l, calls, nodes, codes);
        if cnt == 0 {
          AllEmpty(l, nodes);
          AllTraced(log, was, calls, nodes, codes);
          BagCancel(OfTasks(input.tasks).keys, OfNodes(was).keys, old(Left()), Left());
          break;
        }
      }
    }

    /** pn_process_inputs: every input task goes to a node with its first op code, or is destroyed. */
    method ProcessInputs() returns (r: int)
      requires Valid()
      modifies this`nodes, this`input, this`lost
      ensures Valid() && Ops(nodes) == Ops(old(nodes)) && Grown(old(lost), lost, Ops(nodes))
              && Census() == old(Census())
      ensures r == if old(nodes) == [] then -1 else 0
      ensures if r == 0 then input.tasks == [] && lost == old(lost) + Strays(old(input).tasks, Ops(nodes))
              else unchanged(this)
    {
      hide QueueOk, OfTasks, OfNodes, Ops, Grown, Strays;
      ghost var was, before, tasks := nodes, lost, input.tasks;
      GrownNone(lost, Ops(nodes));
      if nodes == [] {
        return -1;
      }
      var pt: int := 0;
      while input.tasks != []
        invariant Valid() && 0 <= pt < |nodes| && Ops(nodes) == Ops(was) && Grown(before, lost, Ops(was))
        invariant Census() == old(Census())
        invariant lost + Strays(input.tasks, Ops(was)) == before + Strays(tasks, Ops(was))
        decreases |input.tasks|
      {
        ghost var mid, rest := lost, input.tasks;
        pt := AssignInput(pt);
        GrownTwice(before, mid, lost, Ops(was));
        StraysStep(mid, lost, rest, Ops(was));
      }
      StraysNone(Ops(was));
      return 0;
    }

    /** One turn of the loop: the oldest input task goes to a node with its op code, or is destroyed. */
    method AssignInput(pt0: int) returns (pt: int)
      requires Valid() && 0 <= pt0 < |nodes| && input.tasks != []
      modifies this`nodes, this`input, this`lost
      ensures Valid() && 0 <= pt < |nodes| && Ops(nodes) == Ops(old(nodes)) && Grown(old(lost), lost, Ops(nodes))
      ensures Census() == old(Census()) && input.tasks == old(input.tasks)[1..]
      ensures var t := old(input.tasks)[0];
              lost == old(lost) + if PendOp(t.steps) in Ops(nodes) then [] else [Lost(t, NoSuchOp)]
    {
      hide QueueOk, Plus, OfNodes, Ops, Grown, Of, PendOp;
      var t := input.tasks[0];
      assert OfTasks(input.tasks) == Plus(Of(t), OfTasks(input.tasks[1..]));
      hide OfTasks, Left;
      PlusSums(Of(t), OfTasks(input.tasks[1..]));
      input := Got(input);
      pt := Deliver(t, pt0);
      BagSum(OfTasks(input.tasks).keys, OfNodes(nodes).keys, Left());
      MovedBag(Of(t).keys, OfTasks(input.tasks).keys, old(OfNodes(nodes).keys), old(Left()),
               OfNodes(nodes).keys + Left());
      if pt == -1 {
        pt := 0;
      }
    }

    /** pn_process_outputs: the output operation gets every finished task, in order. */
    method ProcessOutputs() returns (count: nat)
      requires Valid()
      modifies this`output, this`consumed
      ensures Valid() && Census() == old(Census())
      ensures count == |old(output).tasks| && output.tasks == [] && consumed == old(consumed) + old(output).tasks
    {
      hide QueueOk, Plus, OfNodes, Of;
      ghost var was := consumed;
      ghost var all := output.tasks;
      count := 0;
      while true
        invariant Valid() && count <= |all| && output.tasks == all[count..] && consumed == was + all[..count]
        invariant Census() == old(Census())
        decreases |output.tasks|
      {
        if output.tasks == [] {
          break;
        }
        var t := output.tasks[0];
        PlusSums(Of(t), OfTasks(output.tasks[1..]));
        OfTasksConcat(consumed, [t]);
        OfTask(t);
        PlusSums(OfTasks(consumed), Of(t));
        output := Got(output);
        consumed := consumed + [t];
        count := count + 1;
      }
    }
  }

  lemma PlusSums(a: Tally, b: Tally)
    ensures Plus(a, b).steps == a.steps + b.steps && Plus(a, b).keys == a.keys + b.keys
  {}

  /** What leaves the first bag is in the others. */
  lemma MovedBag(x: multiset<Key>, a: multiset<Key>, b: multiset<Key>, c: multiset<Key>, r: multiset<Key>)
    requires r == b + c + x
    ensures (x + a) + b + c == a + r
  {}

  lemma BagSum(a: multiset<Key>, b: multiset<Key>, c: multiset<Key>)
    ensures a + b + c == a + (b + c)
  {}

  lemma OpAt(l: seq<Node>, i: int)
    requires 0 <= i < |l|
    ensures l[i].op in Ops(l)
  {
    assert l[i] in l;
  }

  lemma {:induction false} StraysStep(mid: seq<Lost>, now: seq<Lost>, tasks: seq<Job>, ops: set<nat>)
    requires tasks != []
    requires now == mid + if PendOp(tasks[0].steps) in ops then [] else [Lost(tasks[0], NoSuchOp)]
    ensures now + Strays(tasks[1..], ops) == mid + Strays(tasks, ops)
  {
    var first := if PendOp(tasks[0].steps) in ops then [] else [Lost(tasks[0], NoSuchOp)];
    var rest := Strays(tasks[1..], ops);
    assert Strays(tasks, ops) == first + rest;
    assert (mid + first) + rest == mid + (first + rest);
  }

  lemma StraysNone(ops: set<nat>)
    ensures Strays([], ops) == []
  {}

  /** A task without steps is always a stray. */
  lemma StepLessIsStray(l: seq<Node>, t: Job, tasks: seq<Job>)
    requires QueueOk(l) && t in tasks && t.steps.todo == []
    ensures Lost(t, NoSuchOp) in Strays(tasks, Ops(l))
  {
    assert PendOp(t.steps) !in Ops(l) by {
      assert forall n | n in l :: NodeOk(n);
    }
    StrayIsLost(tasks, Ops(l), t);
  }

  lemma {:induction false} StrayIsLost(tasks: seq<Job>, ops: set<nat>, t: Job)
    requires t in tasks && PendOp(t.steps) !in ops
    ensures Lost(t, NoSuchOp) in Strays(tasks, ops)
  {
    if t != tasks[0] {
      StrayIsLost(tasks[1..], ops, t);
    }
  }

  lemma SameNodes(a: seq<Node>, b: seq<Node>)
    requires Rearranged(a, b)
    ensures |a| == |b| && forall x :: x in a <==> x in b
  {
    assert forall x :: x in a <==> x in multiset(a);
    assert forall x :: x in b <==> x in multiset(b);
  }

  lemma AfterTurn(was: seq<Node>, q: seq<Node>, k: nat)
    requires QueueOk(was) && Rearranged(was, q) && k <= |q|
    ensures Rearranged(was, Turned(q, k)) && QueueOk(Turned(q, k)) && |Turned(q, k)| == |was|
  {
    TurnedRearranges(q, k);
    RearrangedTwice(was, q, Turned(q, k));
    RearrangedOk(was, Turned(q, k));
  }

  lemma PendIs(t: Job, op: nat)
    requires TaskOk(t, op) && op != 0
    ensures t.steps.todo != [] && t.steps.todo[0].op == op
  {}

  lemma OfKey(t: Job)
    ensures Of(t).keys == multiset{KeyOf(t)}
  {}

  lemma NothingDue(todo: seq<Step>, ops: set<nat>)
    requires todo != []
    ensures todo[1..] == [] || todo[1].op !in ops ==> Due(todo[1..], ops) == []
  {}

  lemma NextDoneIs(s: Steps)
    ensures s.todo != [] ==> NextDone(s) == Steps(s.todo[1..], [s.todo[0]] + s.done, s.free)
  {}

  lemma EmptyTodo(s: Steps)
    ensures AllDone(s).todo == []
  {}

  lemma OfSteps(t: Job)
    ensures Of(t).steps == |t.steps.todo|
  {}

  lemma GrownNone(l: seq<Lost>, ops: set<nat>)
    ensures Grown(l, l, ops)
  {}

  lemma SameTally(a: seq<Node>, b: seq<Node>)
    requires Rearranged(a, b) && QueueOk(a)
    ensures OfNodes(a) == OfNodes(b) && Ops(a) == Ops(b)
  {
    RearrangedOk(a, b);
  }

  /** Nodes without tasks hold nothing. */
  lemma {:induction false} NothingHeld(l: seq<Node>)
    requires Idle(l)
    ensures OfNodes(l) == Zero()
  {
    if l != [] {
      NothingHeld(l[1..]);
      assert l[0] in l;
    }
  }

  lemma AllEmpty(a: seq<Node>, b: seq<Node>)
    requires Rearranged(a, b) && Idle(a)
    ensures Idle(b) && OfNodes(b) == Zero() && Zero().keys == multiset{}
  {
    SameNodes(a, b);
    NothingHeld(b);
  }

  lemma BagMove(i: multiset<Key>, full: multiset<Key>, kept: multiset<Key>, gone: multiset<Key>, t: multiset<Key>,
                kept': multiset<Key>, gone': multiset<Key>)
    requires full == kept + t && kept' + gone' == kept + gone + t
    ensures i + kept' + gone' == i + full + gone
  {
    assert i + kept' + gone' == i + (kept' + gone');
  }

  lemma BagCancel(i: multiset<Key>, held: multiset<Key>, gone: multiset<Key>, gone': multiset<Key>)
    requires i + multiset{} + gone' == i + held + gone
    ensures gone' == gone + held
  {
    forall k: Key ensures gone'[k] == (gone + held)[k] {
      assert (i + multiset{} + gone')[k] == (i + held + gone)[k];
    }
  }
}
