/**
 What the operations of a processing network (lib/data_proc_net.c) get to see: the log of their calls, and the
 pending steps of the tasks that are still in the nodes.
 */
module ProcTrace {
  import opened ProcTask
  import opened ProcQueue

  /** A call of the operation of a tracker with this op code, for a task. */
  datatype Call = Call(id: int, op: nat)

  /** The operations called for one task, in order. */
  function Log(calls: seq<Call>, id: int): seq<nat> {
    if calls == [] then [] else
      var n := |calls| - 1;
      Log(calls[..n], id) + if calls[n].id == id then [calls[n].op] else []
  }

  lemma LogMore(calls: seq<Call>, c: Call, id: int)
    ensures Log(calls + [c], id) == Log(calls, id) + if c.id == id then [c.op] else []
  {
    assert (calls + [c])[..|calls|] == calls;
  }

  /** The op codes of the pending steps, up to the first that no node has. */
  function Due(todo: seq<Step>, ops: set<nat>): seq<nat> {
    if todo == [] || todo[0].op !in ops then [] else [todo[0].op] + Due(todo[1..], ops)
  }

  lemma {:induction false} DueIs(todo: seq<Step>, ops: set<nat>)
    ensures |Due(todo, ops)| <= |todo|
    ensures forall i | 0 <= i < |Due(todo, ops)| :: Due(todo, ops)[i] == todo[i].op && todo[i].op in ops
    ensures |Due(todo, ops)| < |todo| ==> todo[|Due(todo, ops)|].op !in ops
  {
    if todo != [] && todo[0].op in ops {
      DueIs(todo[1..], ops);
    }
  }

  /** Some node holds the task. */
  ghost predicate Held(l: seq<Node>, t: Job) { exists x :: x in l && t in x.tasks }

  /** What is still due for a task, if some node holds it. */
  ghost function DueOf(l: seq<Node>, ops: set<nat>, id: int): seq<nat> {
    if t :| Held(l, t) && t.id == id then Due(t.steps.todo, ops) else []
  }

  /** No two tasks are the same one. */
  ghost predicate Apart(keys: multiset<Key>) {
    forall a, b | a in keys && b in keys && a.id == b.id :: a == b && keys[a] == 1
  }

  lemma ApartSub(a: multiset<Key>, b: multiset<Key>)
    requires Apart(b) && a <= b
    ensures Apart(a)
  {
    forall x, y | x in a && y in a && x.id == y.id ensures x == y && a[x] == 1 {
      assert x in b && y in b;
    }
  }

  lemma ApartSum(a: multiset<Key>, b: multiset<Key>, x: Key, y: Key)
    requires Apart(a + b) && x in a && y in b
    ensures x.id != y.id
  {
    assert x in a + b && y in a + b;
    assert (a + b)[x] == a[x] + b[x];
  }

  function KeyOf(t: Job): Key { Key(t.id, Plan(t.steps)) }

  lemma {:induction false} TaskKey(l: seq<Job>, t: Job)
    requires t in l
    ensures KeyOf(t) in OfTasks(l).keys
  {
    hide Plan;
    if t != l[0] {
      TaskKey(l[1..], t);
    }
  }

  lemma {:induction false} NodeKey(l: seq<Node>, x: Node)
    requires x in l
    ensures OfTasks(x.tasks).keys <= OfNodes(l).keys
  {
    hide OfTasks;
    if x != l[0] {
      NodeKey(l[1..], x);
    }
  }

  lemma HeldKey(l: seq<Node>, t: Job)
    requires Held(l, t)
    ensures KeyOf(t) in OfNodes(l).keys
  {
    hide OfTasks, OfNodes;
    var x :| x in l && t in x.tasks;
    TaskKey(x.tasks, t);
    NodeKey(l, x);
  }

  lemma {:induction false} OneTask(l: seq<Job>, s: Job, t: Job)
    requires Apart(OfTasks(l).keys) && s in l && t in l && s.id == t.id
    ensures s == t
  {
    hide Plan, Apart;
    var first, rest := Of(l[0]).keys, OfTasks(l[1..]).keys;
    assert OfTasks(l).keys == first + rest;
    ApartSub(rest, OfTasks(l).keys);
    if s in l[1..] && t in l[1..] {
      OneTask(l[1..], s, t);
    } else if s in l[1..] {
      TaskKey(l[1..], s);
      ApartSum(first, rest, KeyOf(t), KeyOf(s));
    } else if t in l[1..] {
      TaskKey(l[1..], t);
      ApartSum(first, rest, KeyOf(s), KeyOf(t));
    }
  }

  /** One node at most holds a task, and holds it once. */
  lemma {:induction false} OneHeld(l: seq<Node>, s: Job, t: Job)
    requires Apart(OfNodes(l).keys) && Held(l, s) && Held(l, t) && s.id == t.id
    ensures s == t
  {
    hide OfTasks, Apart;
    var first, rest := OfTasks(l[0].tasks).keys, OfNodes(l[1..]).keys;
    assert OfNodes(l).keys == first + rest;
    ApartSub(first, OfNodes(l).keys);
    ApartSub(rest, OfNodes(l).keys);
    HeldFirst(l, s);
    HeldFirst(l, t);
    if s in l[0].tasks && t in l[0].tasks {
      OneTask(l[0].tasks, s, t);
    } else if s in l[0].tasks {
      TaskKey(l[0].tasks, s);
      HeldKey(l[1..], t);
      ApartSum(first, rest, KeyOf(s), KeyOf(t));
    } else if t in l[0].tasks {
      TaskKey(l[0].tasks, t);
      HeldKey(l[1..], s);
      ApartSum(first, rest, KeyOf(t), KeyOf(s));
    } else {
      OneHeld(l[1..], s, t);
    }
  }

  lemma HeldFirst(l: seq<Node>, t: Job)
    requires Held(l, t)
    ensures l != [] && (t in l[0].tasks || Held(l[1..], t))
  {
    var x :| x in l && t in x.tasks;
    assert x == l[0] || x in l[1..];
  }

  lemma DueOfHeld(l: seq<Node>, ops: set<nat>, t: Job)
    requires Apart(OfNodes(l).keys) && Held(l, t)
    ensures DueOf(l, ops, t.id) == Due(t.steps.todo, ops)
  {
    hide Held, Apart, OfNodes;
    var s :| Held(l, s) && s.id == t.id && DueOf(l, ops, t.id) == Due(s.steps.todo, ops);
    OneHeld(l, s, t);
  }

  lemma SameDue(a: seq<Node>, b: seq<Node>, ops: set<nat>, id: int)
    requires Apart(OfNodes(a).keys) && Apart(OfNodes(b).keys)
    requires forall t: Job | t.id == id :: Held(a, t) <==> Held(b, t)
    ensures DueOf(a, ops, id) == DueOf(b, ops, id)
  {
    hide Held, Apart, OfNodes, Due;
    if t :| Held(a, t) && t.id == id {
      DueOfHeld(a, ops, t);
      DueOfHeld(b, ops, t);
    }
  }

  // ---------------------------------------------------------------- one step

  /** What was called for a task and what is still due, together. */
  ghost function Course(calls: seq<Call>, l: seq<Node>, ops: set<nat>, id: int): seq<nat> {
    Log(calls, id) + DueOf(l, ops, id)
  }

  /** No task's course changes, or some end early. */
  ghost predicate Follows(calls: seq<Call>, l: seq<Node>, calls': seq<Call>, l': seq<Node>, ops: set<nat>,
                          exact: bool) {
    forall id :: Course(calls', l', ops, id) <= Course(calls, l, ops, id)
                 && (exact ==> Course(calls', l', ops, id) == Course(calls, l, ops, id))
  }

  lemma FollowsTwice(c: seq<Call>, l: seq<Node>, c1: seq<Call>, l1: seq<Node>, c2: seq<Call>, l2: seq<Node>,
                     ops: set<nat>, exact: bool)
    requires Follows(c, l, c1, l1, ops, exact) && Follows(c1, l1, c2, l2, ops, exact)
    ensures Follows(c, l, c2, l2, ops, exact)
  {
    hide Course;
    forall id
      ensures Course(c2, l2, ops, id) <= Course(c, l, ops, id)
              && (exact ==> Course(c2, l2, ops, id) == Course(c, l, ops, id))
    {
      assert Course(c1, l1, ops, id) <= Course(c, l, ops, id);
      assert Course(c2, l2, ops, id) <= Course(c1, l1, ops, id);
    }
  }

  lemma FollowsSame(calls: seq<Call>, l: seq<Node>, l': seq<Node>, ops: set<nat>, exact: bool)
    requires Apart(OfNodes(l).keys) && Apart(OfNodes(l').keys) && forall x :: x in l <==> x in l'
    ensures Follows(calls, l, calls, l', ops, exact)
  {
    hide Apart, OfNodes;
    forall id ensures DueOf(l', ops, id) == DueOf(l, ops, id) {
      SameDue(l, l', ops, id);
    }
  }

  /** Taking the oldest task of a node: the others are held as before, and that one no longer. */
  lemma TakenOut(l: seq<Node>, p: nat, l1: seq<Node>)
    requires p < |l| && l[p].tasks != [] && l1 == l[p := Got(l[p])]
    requires OfNodes(l).keys == OfNodes(l1).keys + multiset{KeyOf(l[p].tasks[0])} && Apart(OfNodes(l).keys)
    ensures Held(l, l[p].tasks[0])
    ensures forall s :: Held(l, s) <==> Held(l1, s) || s == l[p].tasks[0]
    ensures forall s | Held(l1, s) :: s.id != l[p].tasks[0].id
    ensures Apart(OfNodes(l1).keys)
  {
    hide OfNodes, OfTasks, Apart;
    var t := l[p].tasks[0];
    assert l[p] in l && t in l[p].tasks;
    forall s ensures Held(l, s) <==> Held(l1, s) || s == t {
      HeldBut(l, p, Got(l[p]), s);
      HeldAt(l, p, s);
      assert s in l[p].tasks <==> s == t || s in l[p].tasks[1..];
    }
    forall s | Held(l1, s) ensures s.id != t.id {
      HeldKey(l1, s);
      ApartSum(OfNodes(l1).keys, multiset{KeyOf(t)}, KeyOf(s), KeyOf(t));
    }
    ApartSub(OfNodes(l1).keys, OfNodes(l).keys);
  }

  /** Held elsewhere, or by the node itself. */
  ghost predicate Elsewhere(l: seq<Node>, p: nat, s: Job) { exists i :: 0 <= i < |l| && i != p && s in l[i].tasks }

  lemma HeldAt(l: seq<Node>, p: nat, s: Job)
    requires p < |l|
    ensures Held(l, s) <==> Elsewhere(l, p, s) || s in l[p].tasks
  {
    if Held(l, s) {
      var x :| x in l && s in x.tasks;
      var i :| 0 <= i < |l| && l[i] == x;
    }
    if i :| 0 <= i < |l| && i != p && s in l[i].tasks {
      assert l[i] in l;
    }
    assert l[p] in l;
  }

  lemma HeldBut(l: seq<Node>, p: nat, n: Node, s: Job)
    requires p < |l|
    ensures Held(l[p := n], s) <==> Elsewhere(l, p, s) || s in n.tasks
  {
    var m := l[p := n];
    HeldAt(m, p, s);
    if i :| 0 <= i < |l| && i != p && s in l[i].tasks {
      assert m[i] == l[i];
    }
    if i :| 0 <= i < |m| && i != p && s in m[i].tasks {
      assert m[i] == l[i];
    }
  }

  lemma PutIn(l: seq<Node>, i: nat, t: Job)
    requires i < |l|
    ensures forall s :: Held(l[i := Put(l[i], t)], s) <==> Held(l, s) || s == t
  {
    forall s ensures Held(l[i := Put(l[i], t)], s) <==> Held(l, s) || s == t {
      HeldBut(l, i, Put(l[i], t), s);
      HeldAt(l, i, s);
    }
  }

  /**
   One call: the task `t` of the node `p` is taken out, its operation called, and `next`, which is the same task, put
   into the node `at`, or nowhere if there is no such node.
   */
  ghost predicate Passed(l: seq<Node>, p: nat, l': seq<Node>, at: int, next: Job)
    requires p < |l| && l[p].tasks != []
  {
    var l1 := l[p := Got(l[p])];
    && -1 <= at < |l1| && next.id == l[p].tasks[0].id && l' == if at == -1 then l1 else l1[at := Put(l1[at], next)]
  }

  lemma {:induction false} CallStep(calls: seq<Call>, l: seq<Node>, p: nat, l': seq<Node>, at: int, next: Job,
                                    ops: set<nat>, exact: bool)
    requires p < |l| && l[p].tasks != [] && Passed(l, p, l', at, next)
    requires Apart(OfNodes(l).keys) && Apart(OfNodes(l').keys)
    requires OfNodes(l).keys == OfNodes(l[p := Got(l[p])]).keys + multiset{KeyOf(l[p].tasks[0])}
    requires l[p].tasks[0].steps.todo != [] && l[p].tasks[0].steps.todo[0].op == l[p].op && l[p].op in ops
    requires var todo := l[p].tasks[0].steps.todo;
             && (at != -1 ==> next.steps.todo == todo[1..])
             && (exact && at == -1 ==> Due(todo[1..], ops) == [])
    ensures Follows(calls, l, calls + [Call(l[p].tasks[0].id, l[p].op)], l', ops, exact)
  {
    hide OfNodes, OfTasks, Apart, Held;
    var t, l1 := l[p].tasks[0], l[p := Got(l[p])];
    var c := Call(t.id, l[p].op);
    TakenOut(l, p, l1);
    if at != -1 {
      PutIn(l1, at, next);
    }
    forall id
      ensures Course(calls + [c], l', ops, id) <= Course(calls, l, ops, id)
              && (exact ==> Course(calls + [c], l', ops, id) == Course(calls, l, ops, id))
    {
      LogMore(calls, c, id);
      if id == t.id {
        if at == -1 {
          NotDue(l', ops, id);
        }
        CourseOf(calls, l, l', at, t, next, ops, exact);
      } else {
        SameDue(l, l', ops, id);
      }
    }
  }

  /** The course of the task itself. */
  lemma {:induction false} CourseOf(calls: seq<Call>, l: seq<Node>, l': seq<Node>, at: int, t: Job, next: Job,
                                    ops: set<nat>, exact: bool)
    requires Apart(OfNodes(l).keys) && Apart(OfNodes(l').keys) && Held(l, t) && next.id == t.id
    requires t.steps.todo != [] && t.steps.todo[0].op in ops
    requires if at == -1 then DueOf(l', ops, t.id) == [] else Held(l', next) && next.steps.todo == t.steps.todo[1..]
    requires exact && at == -1 ==> Due(t.steps.todo[1..], ops) == []
    ensures var c := Call(t.id, t.steps.todo[0].op);
            && Course(calls + [c], l', ops, t.id) <= Course(calls, l, ops, t.id)
            && (exact ==> Course(calls + [c], l', ops, t.id) == Course(calls, l, ops, t.id))
  {
    hide OfNodes, OfTasks, Apart, Held;
    LogMore(calls, Call(t.id, t.steps.todo[0].op), t.id);
    DueOfHeld(l, ops, t);
    if at != -1 {
      DueOfHeld(l', ops, next);
    }
    CourseOn(Log(calls, t.id), t.steps.todo, ops, at != -1, exact);
  }

  lemma NotDue(l: seq<Node>, ops: set<nat>, id: int)
    requires forall s | Held(l, s) :: s.id != id
    ensures DueOf(l, ops, id) == []
  {}

  lemma CourseOn(log: seq<nat>, todo: seq<Step>, ops: set<nat>, on: bool, exact: bool)
    requires todo != [] && todo[0].op in ops && (exact && !on ==> Due(todo[1..], ops) == [])
    ensures var was, now := log + Due(todo, ops), log + [todo[0].op] + if on then Due(todo[1..], ops) else [];
            now <= was && (exact ==> now == was)
  {
    var rest := Due(todo[1..], ops);
    assert log + ([todo[0].op] + rest) == log + [todo[0].op] + rest;
  }
}
