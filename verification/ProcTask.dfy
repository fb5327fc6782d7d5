/**
 The processing task of lib/data_proc_task.c: a pool of steps spread over a todo list, a done list (newest
 first) and a free list.
 */
module ProcTask {
  const EINVAL: int := 22
  const ENOMEM: int := 12

  datatype Step = Step(op: nat, info: int)

  /** The three lists of a task. */
  datatype Steps = Steps(todo: seq<Step>, done: seq<Step>, free: seq<Step>)

  /** pt_get_pend_step_op_code: 0 means that nothing is pending. */
  function PendOp(s: Steps): nat { if s.todo == [] then 0 else s.todo[0].op }

  function Reversed(l: seq<Step>): seq<Step> { if l == [] then [] else Reversed(l[1..]) + [l[0]] }

  /** The processing chain that was asked for: what was done, oldest first, then what is still to do. */
  function Plan(s: Steps): seq<Step> { Reversed(s.done) + s.todo }

  /** No step in either list has the op code that means "none". */
  ghost predicate WellFormed(s: Steps) {
    && (forall i | 0 <= i < |s.todo| :: s.todo[i].op != 0)
    && (forall i | 0 <= i < |s.done| :: s.done[i].op != 0)
  }

  function NextDone(s: Steps): Steps {
    if s.todo == [] then s else Steps(s.todo[1..], [s.todo[0]] + s.done, s.free)
  }

  function AllDone(s: Steps): Steps { Steps([], Reversed(s.todo) + s.done, s.free) }

  function Rewound(s: Steps): Steps { Steps(Plan(s), [], s.free) }

  lemma {:induction false} ReversedConcat(a: seq<Step>, b: seq<Step>)
    ensures Reversed(a + b) == Reversed(b) + Reversed(a)
  {
    if a == [] {
      assert a + b == b;
    } else {
      assert (a + b)[1..] == a[1..] + b;
      ReversedConcat(a[1..], b);
    }
  }

  lemma {:induction false} ReversedTwice(a: seq<Step>)
    ensures Reversed(Reversed(a)) == a && |Reversed(a)| == |a|
    ensures forall x | x in Reversed(a) :: x in a
  {
    if a != [] {
      ReversedTwice(a[1..]);
      ReversedConcat(Reversed(a[1..]), [a[0]]);
      assert Reversed([a[0]]) == [a[0]] by { assert [a[0]][1..] == []; }
    }
  }

  /** Completing the pending step keeps the chain, and takes one step off what is pending. */
  lemma NextDoneKeeps(s: Steps)
    requires WellFormed(s)
    ensures Plan(NextDone(s)) == Plan(s) && WellFormed(NextDone(s))
    ensures s.todo != [] ==> |NextDone(s).todo| == |s.todo| - 1
    ensures NextDone(s).free == s.free
  {
    if s.todo != [] {
      var d := [s.todo[0]] + s.done;
      assert d[1..] == s.done;
      assert s.todo == [s.todo[0]] + s.todo[1..];
    }
  }

  /** Clearing all pending steps keeps the chain. */
  lemma AllDoneKeeps(s: Steps)
    requires WellFormed(s)
    ensures Plan(AllDone(s)) == Plan(s) && WellFormed(AllDone(s)) && PendOp(AllDone(s)) == 0
    ensures AllDone(s).todo == [] && AllDone(s).free == s.free
  {
    ReversedConcat(Reversed(s.todo), s.done);
    ReversedTwice(s.todo);
    forall i | 0 <= i < |AllDone(s).done| ensures AllDone(s).done[i].op != 0 {
      if i < |s.todo| {
        assert Reversed(s.todo)[i] in s.todo;
      }
    }
  }

  /** However many steps were completed, rewinding gives the chain back, ready to start over. */
  lemma RewindUndoes(s: Steps)
    requires WellFormed(s)
    ensures Rewound(NextDone(s)) == Rewound(s) && Rewound(AllDone(s)) == Rewound(s)
    ensures s.done == [] ==> Rewound(NextDone(s)) == s && Rewound(AllDone(s)) == s
    ensures Plan(Rewound(s)) == Plan(s) && Rewound(s).todo == Plan(s) && Rewound(s).done == []
            && Rewound(s).free == s.free
  {
    NextDoneKeeps(s);
    AllDoneKeeps(s);
  }

  class Task {
    var todo: seq<Step>
    var done: seq<Step>
    var free: seq<Step>

    ghost function View(): Steps
      reads this
    {
      Steps(todo, done, free)
    }

    /** pt_create. */
    constructor (steps: nat)
      ensures View() == Steps([], [], free) && |free| == steps && WellFormed(View())
    {
      todo, done, free := [], [], [];
      new;
      var i := 0;
      while i < steps
        invariant i <= steps && |free| == i && todo == [] && done == []
      {
        free := free + [Step(0, 0)];
        i := i + 1;
      }
    }

    /** pt_add_step: the chain grows at its end while the pool lasts. */
    method AddStep(op: nat, info: int) returns (r: int)
      requires WellFormed(View())
      modifies this
      ensures WellFormed(View()) && done == old(done)
      ensures r == if op == 0 then -EINVAL else if old(free) == [] then -ENOMEM else 0
      ensures r != 0 ==> View() == old(View())
      ensures r == 0 ==> Plan(View()) == Plan(old(View())) + [Step(op, info)] && |free| == |old(free)| - 1
    {
      if op == 0 {
        return -EINVAL;
      }
      if free == [] {
        return -ENOMEM;
      }
      free := free[1..];
      todo := todo + [Step(op, info)];
      return 0;
    }

    /** pt_next_pend_step_done. */
    method NextPendStepDone() returns (r: int)
      modifies this
      ensures View() == NextDone(old(View())) && r == if old(todo) == [] then -1 else 0
    {
      if todo == [] {
        return -1;
      }
      var s := todo[0];
      todo := todo[1..];
      done := [s] + done;
      return 0;
    }

    /** pt_del_all_pending. */
    method DelAllPending()
      requires WellFormed(View())
      modifies this
      ensures View() == AllDone(old(View())) && Plan(View()) == Plan(old(View()))
    {
      ghost var was := View();
      while (if todo == [] then 0 else todo[0].op) != 0
        invariant WellFormed(View()) && Plan(View()) == Plan(was) && free == was.free
        invariant AllDone(View()) == AllDone(was)
        decreases |todo|
      {
        NextDoneKeeps(View());
        assert Reversed(todo) + done == Reversed(todo[1..]) + ([todo[0]] + done);
        var r := NextPendStepDone();
      }
    }

    /** pt_rewind_steps_done: each step of the done list in turn is moved to the head of the todo list. */
    method RewindStepsDone()
      modifies this
      ensures View() == Rewound(old(View()))
    {
      ghost var was := View();
      while done != []
        invariant Plan(View()) == Plan(was) && free == was.free
        decreases |done|
      {
        assert Reversed(done) + todo == Reversed(done[1..]) + ([done[0]] + todo);
        todo := [done[0]] + todo;
        done := done[1..];
      }
    }
  }
}
