/**
 Auto-drop sessions of the SpaceWire driver (kernel/grspw2.c) seen from the head of the used list, on a ring with
 all descriptors armed. The session's own flag stands `k` places behind the head; sessions before may have left
 others. An interrupt that recycles more descriptors than are completed puts the ring out of order.
 */
module SpwSession {

  /** The number of descriptors, of packets to drop, of completed descriptors, and the places with a flag. */
  datatype Drops = Drops(n: nat, k: nat, done: nat, flags: set<nat>)

  ghost predicate Formed(s: Drops) {
    s.k < s.n && s.done <= s.n && s.k in s.flags && forall f | f in s.flags :: f < s.n
  }

  datatype Outcome = Orderly(s: Drops) | Disorder

  /** A place, seen from a head that is `a` places further. */
  function Back(n: nat, f: nat, a: nat): nat
    requires a <= n
  {
    if f >= a then f - a else f + n - a
  }

  /** The head moves on by `a` places and takes the session's flag along; the others stay where they are. */
  function Turn(s: Drops, a: nat): set<nat>
    requires a <= s.n
  {
    {s.k} + set f | f in s.flags && f != s.k :: Back(s.n, f, a)
  }

  datatype Move = Arrive | Consume

  /** A packet into the first enabled descriptor with its interrupt, or a packet fetched or dropped. */
  function Step(s: Drops, m: Move): Outcome {
    match m
    case Consume => if s.done == 0 || s.n == 0 then Orderly(s) else Orderly(Drops(s.n, s.k, s.done - 1, Turn(s, 1)))
    case Arrive =>
      if s.done >= s.n then Orderly(s)
      else if s.done !in s.flags then Orderly(s.(done := s.done + 1))
      else if s.k > s.done + 1 then Disorder
      else Orderly(Drops(s.n, s.k, s.done + 1 - s.k, Turn(s, s.k)))
  }

  function Run(o: Outcome, moves: seq<Move>): Outcome
    decreases |moves|
  {
    if o.Disorder? || moves == [] then o else Run(Step(o.s, moves[0]), moves[1..])
  }

  // ---------------------------------------------------------------- what is safe

  /** A left-over flag that the session's own one will be moved onto before it can fire. */
  predicate Harmless(s: Drops, f: nat) { s.k < f < s.done || (s.k + 1 == s.n == s.done && f == 0) }

  predicate Safe(s: Drops) { s.k <= 1 || forall f | f in s.flags && f != s.k :: Harmless(s, f) }

  lemma StepFormed(s: Drops, m: Move)
    requires Formed(s)
    ensures Step(s, m).Orderly? ==> Formed(Step(s, m).s) && Step(s, m).s.n == s.n && Step(s, m).s.k == s.k
  {}

  lemma SafeStep(s: Drops, m: Move)
    requires Formed(s) && Safe(s)
    ensures Step(s, m).Orderly? && Safe(Step(s, m).s)
  {}

  /** From a safe state no run of arrivals and consumed packets disturbs the ring. */
  lemma {:induction false} SafeForever(s: Drops, moves: seq<Move>)
    requires Formed(s) && Safe(s)
    ensures Run(Orderly(s), moves).Orderly?
    decreases |moves|
  {
    if moves != [] {
      StepFormed(s, moves[0]);
      SafeStep(s, moves[0]);
      SafeForever(Step(s, moves[0]).s, moves[1..]);
    }
  }

  // ---------------------------------------------------------------- what is not

  ghost predicate Bad(s: Drops) { exists moves :: Run(Orderly(s), moves) == Disorder }

  lemma BadBefore(s: Drops, m: Move)
    requires Step(s, m).Disorder? || Bad(Step(s, m).s)
    ensures Bad(s)
  {
    if Step(s, m).Disorder? {
      assert Run(Orderly(s), [m]) == Run(Disorder, []);
    } else {
      var moves :| Run(Orderly(Step(s, m).s), moves) == Disorder;
      assert ([m] + moves)[1..] == moves;
      assert Run(Orderly(s), [m] + moves) == Disorder;
    }
  }

  /** A flag ahead of the core, too close to the head. */
  lemma {:induction false} TooClose(s: Drops, f: nat)
    requires Formed(s) && f in s.flags && s.done <= f && f + 1 < s.k
    ensures Bad(s)
    decreases f - s.done
  {
    if s.done !in s.flags {
      StepFormed(s, Arrive);
      TooClose(Step(s, Arrive).s, f);
    }
    BadBefore(s, Arrive);
  }

  /** Arrivals up to the first flag. */
  lemma {:induction false} ArriveTo(s: Drops, d: nat)
    requires Formed(s) && s.done <= d <= s.n && (forall f | s.done <= f < d :: f !in s.flags) && Bad(s.(done := d))
    ensures Bad(s)
    decreases d - s.done
  {
    if s.done < d {
      ArriveTo(s.(done := s.done + 1), d);
      BadBefore(s, Arrive);
    }
  }

  /** Any left-over flag between the core and the session's own one. */
  lemma Between(s: Drops, f: nat)
    requires Formed(s) && f in s.flags && s.done <= f < s.k && s.k >= 2
    ensures Bad(s)
  {
    if f + 1 < s.k {
      TooClose(s, f);
    } else if s.done > 0 {
      Closer(s, f);
    } else if 0 in s.flags {
      TooClose(s, 0);
    } else {
      var t := Step(s, Arrive).s;
      StepFormed(s, Arrive);
      Closer(t, f);
      BadBefore(s, Arrive);
    }
  }

  /** A packet consumed brings the flag one place closer to the head. */
  lemma Closer(s: Drops, f: nat)
    requires Formed(s) && f in s.flags && 0 < s.done <= f && f + 1 == s.k && s.k >= 2
    ensures Bad(s)
  {
    var t := Step(s, Consume).s;
    StepFormed(s, Consume);
    assert Back(s.n, f, 1) in t.flags;
    TooClose(t, f - 1);
    BadBefore(s, Consume);
  }

  /** With nothing completed every left-over flag does harm. */
  lemma {:induction false} FromEmpty(s: Drops, f: nat)
    requires Formed(s) && f in s.flags && f != s.k && s.done == 0 && s.k >= 2
    ensures Bad(s)
    decreases f
  {
    if g: nat :| g in s.flags && g < s.k {
      Between(s, g);
    } else if f > s.k + 1 {
      var t := Step(s, Arrive).s;
      StepFormed(s, Arrive);
      var u := Step(t, Consume).s;
      StepFormed(t, Consume);
      assert Back(t.n, f, 1) in u.flags;
      FromEmpty(u, f - 1);
      BadBefore(t, Consume);
      BadBefore(s, Arrive);
    } else {
      OwnFires(s, f);
    }
  }

  /** The session's own flag fires, and what was next behind it, or first of all, comes next to the head. */
  lemma OwnFires(s: Drops, f: nat)
    requires Formed(s) && f in s.flags && f != s.k && s.k >= 2 && s.done <= s.k
    requires f == s.k + 1 || (f == 0 && s.k + 1 == s.n)
    requires forall g | s.done <= g < s.k :: g !in s.flags
    ensures Bad(s)
  {
    var t := s.(done := s.k);
    var u := Step(t, Arrive).s;
    StepFormed(t, Arrive);
    assert Back(s.n, f, s.k) == 1 && 1 in u.flags;
    var v := Step(u, Consume).s;
    StepFormed(u, Consume);
    assert Back(s.n, 1, 1) == 0 && 0 in v.flags;
    Between(v, 0);
    BadBefore(u, Consume);
    BadBefore(t, Arrive);
    ArriveTo(s, s.k);
  }

  /** The left-over flag would be merged with the next packet consumed. */
  lemma NextToOwn(s: Drops, f: nat)
    requires Formed(s) && f in s.flags && f != s.k && s.k >= 2 && s.done > 0 && !Harmless(s, f)
    requires Back(s.n, f, 1) == s.k
    ensures Bad(s)
  {
    if g: nat :| g in s.flags && s.done <= g < s.k {
      Between(s, g);
    } else if s.done <= s.k {
      OwnFires(s, f);
    } else {
      assert f == s.k + 1 == s.done;
      var t := Step(s, Arrive).s;
      StepFormed(s, Arrive);
      assert Back(s.n, f, s.k) == 1 && 1 in t.flags;
      var u := Step(t, Consume).s;
      StepFormed(t, Consume);
      assert Back(s.n, 1, 1) == 0 && 0 in u.flags;
      var v := Step(u, Consume).s;
      StepFormed(u, Consume);
      assert Back(s.n, 0, 1) == s.n - 1 && s.n - 1 in v.flags;
      FromEmpty(v, s.n - 1);
      BadBefore(u, Consume);
      BadBefore(t, Consume);
      BadBefore(s, Arrive);
    }
  }

  /** Every other left-over flag can do harm. */
  lemma {:induction false} HarmDone(s: Drops, f: nat)
    requires Formed(s) && f in s.flags && f != s.k && s.k >= 2 && !Harmless(s, f)
    ensures Bad(s)
    decreases s.done
  {
    if s.done == 0 {
      FromEmpty(s, f);
    } else if Back(s.n, f, 1) == s.k {
      NextToOwn(s, f);
    } else {
      var t := Step(s, Consume).s;
      StepFormed(s, Consume);
      assert Back(s.n, f, 1) in t.flags;
      HarmDone(t, Back(s.n, f, 1));
      BadBefore(s, Consume);
    }
  }

  /** Exactly the safe states stay in order in every continuation. */
  lemma SafeExactly(s: Drops)
    requires Formed(s)
    ensures Safe(s) <==> forall moves :: Run(Orderly(s), moves).Orderly?
  {
    if Safe(s) {
      forall moves ensures Run(Orderly(s), moves).Orderly? {
        SafeForever(s, moves);
      }
    } else {
      var f :| f in s.flags && f != s.k && !Harmless(s, f);
      HarmDone(s, f);
      var moves :| Run(Orderly(s), moves) == Disorder;
      assert !Run(Orderly(s), moves).Orderly?;
    }
  }

  // ---------------------------------------------------------------- what a session is for

  /** Only the session's own flag, ahead of the core. */
  ghost predicate Flowing(s: Drops) { Formed(s) && s.flags == {s.k} && s.k >= 1 && s.done <= s.k }

  /** Then the table never runs full: there is always a descriptor for the next packet. */
  lemma FlowStep(s: Drops, m: Move)
    requires Flowing(s)
    ensures s.done < s.n && Step(s, m).Orderly? && Flowing(Step(s, m).s)
  {}
}
