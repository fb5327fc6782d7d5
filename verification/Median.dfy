/** The median of kernel/testmodule.c: Torben's method, which brackets the value without moving the data. */
module Median {

  /** How many elements are smaller than `x`. */
  function Below(s: seq<int>, x: int): (n: nat)
    ensures n <= |s|
  {
    if s == [] then 0 else Below(s[..|s| - 1], x) + (if s[|s| - 1] < x then 1 else 0)
  }

  /** How many are not greater. */
  function UpTo(s: seq<int>, x: int): (n: nat)
    ensures n <= |s|
  {
    if s == [] then 0 else UpTo(s[..|s| - 1], x) + (if s[|s| - 1] <= x then 1 else 0)
  }

  /** `x` is an element that stands at position `k`, counted from 1, when the elements are sorted. */
  ghost predicate Kth(s: seq<int>, k: nat, x: int) { x in s && Below(s, x) < k <= UpTo(s, x) }

  /** If everything below `a` is at most `b`, no more is below `a` than is up to `b`. */
  lemma {:induction false} BelowUpTo(s: seq<int>, a: int, b: int)
    requires forall i | 0 <= i < |s| :: s[i] < a ==> s[i] <= b
    ensures Below(s, a) <= UpTo(s, b)
  {
    if s != [] {
      BelowUpTo(s[..|s| - 1], a, b);
    }
  }

  lemma {:induction false} BelowGrows(s: seq<int>, a: int, b: int)
    requires a <= b
    ensures Below(s, a) <= Below(s, b) && (a < b && a in s ==> Below(s, a) < Below(s, b))
    ensures UpTo(s, a) <= UpTo(s, b) && (a < b && b in s ==> UpTo(s, a) < UpTo(s, b))
    ensures Below(s, a) <= UpTo(s, a) && (Below(s, a) < UpTo(s, a) <==> a in s)
  {
    if s != [] {
      var m := s[..|s| - 1];
      BelowGrows(m, a, b);
      assert s == m + [s[|s| - 1]];
    }
  }

  /** There is only one such element. */
  lemma KthUnique(s: seq<int>, k: nat, x: int, y: int)
    requires Kth(s, k, x) && Kth(s, k, y)
    ensures x == y
  {
    if x < y {
      BelowUpTo(s, y, y);
      UpToBelow(s, x, y);
      assert false;
    } else if y < x {
      UpToBelow(s, y, x);
      assert false;
    }
  }

  lemma {:induction false} UpToBelow(s: seq<int>, a: int, b: int)
    requires a < b
    ensures UpTo(s, a) <= Below(s, b)
  {
    if s != [] {
      UpToBelow(s[..|s| - 1], a, b);
    }
  }

  /** In a sorted sequence that is the element at that position. */
  lemma KthOfSorted(s: seq<int>, k: nat)
    requires 1 <= k <= |s| && forall i, j | 0 <= i < j < |s| :: s[i] <= s[j]
    ensures Kth(s, k, s[k - 1])
  {
    SortedCounts(s, k - 1, s[k - 1]);
  }

  lemma {:induction false} SortedCounts(s: seq<int>, p: nat, x: int)
    requires (forall i, j | 0 <= i < j < |s| :: s[i] <= s[j])
    requires if p < |s| then s[p] == x else forall i | 0 <= i < |s| :: s[i] <= x
    ensures Below(s, x) <= p && UpTo(s, x) >= if p < |s| then p + 1 else |s|
  {
    if s != [] {
      var m := s[..|s| - 1];
      if p < |m| {
        SortedCounts(m, p, x);
      } else {
        SortedCounts(m, |m|, x);
      }
    }
  }

  // ---------------------------------------------------------------- one turn

  /** Counts around a guess, with the nearest elements on both sides within the bracket. */
  datatype Census = Census(less: nat, equal: nat, greater: nat, maxLt: int, minGt: int)

  /** What the inner loop finds. */
  function CensusOf(s: seq<int>, guess: int, lo: int, hi: int): Census {
    if s == [] then Census(0, 0, 0, lo, hi) else
      var c, x := CensusOf(s[..|s| - 1], guess, lo, hi), s[|s| - 1];
      if x < guess then c.(less := c.less + 1, maxLt := if x > c.maxLt then x else c.maxLt)
      else if x > guess then c.(greater := c.greater + 1, minGt := if x < c.minGt then x else c.minGt)
      else c.(equal := c.equal + 1)
  }

  ghost predicate Counted(s: seq<int>, guess: int, lo: int, hi: int, c: Census) {
    && c.less == Below(s, guess) && c.less + c.equal == UpTo(s, guess) && c.less + c.equal + c.greater == |s|
    && lo <= c.maxLt && c.minGt <= hi
    && (c.maxLt == lo || (c.maxLt < guess && c.maxLt in s)) && (c.minGt == hi || (c.minGt > guess && c.minGt in s))
    && (forall i | 0 <= i < |s| :: s[i] < guess ==> s[i] <= c.maxLt)
    && (forall i | 0 <= i < |s| :: s[i] > guess ==> s[i] >= c.minGt)
  }

  lemma {:induction false} CensusCounts(s: seq<int>, guess: int, lo: int, hi: int)
    ensures Counted(s, guess, lo, hi, CensusOf(s, guess, lo, hi))
  {
    if s != [] {
      var m := s[..|s| - 1];
      CensusCounts(m, guess, lo, hi);
      assert s == m + [s[|s| - 1]];
    }
  }

  /** The inner loop. */
  method Count(data: array<int>, guess: int, lo: int, hi: int) returns (c: Census)
    ensures c == CensusOf(data[..], guess, lo, hi)
  {
    c := Census(0, 0, 0, lo, hi);
    for i := 0 to data.Length
      invariant c == CensusOf(data[..i], guess, lo, hi)
    {
      assert data[..i + 1][..i] == data[..i];
      if data[i] < guess {
        c := c.(less := c.less + 1);
        if data[i] > c.maxLt {
          c := c.(maxLt := data[i]);
        }
      } else if data[i] > guess {
        c := c.(greater := c.greater + 1);
        if data[i] < c.minGt {
          c := c.(minGt := data[i]);
        }
      } else {
        c := c.(equal := c.equal + 1);
      }
    }
    assert data[..data.Length] == data[..];
  }

  predicate Int32(x: int) { -0x8000_0000 <= x < 0x8000_0000 }

  /** The sum of two 32-bit numbers, as the machine computes it. */
  function Wrap32(x: int): int {
    if x >= 0x8000_0000 then x - 0x1_0000_0000 else if x < -0x8000_0000 then x + 0x1_0000_0000 else x
  }

  function Guess(lo: int, hi: int): int { Wrap32(lo + hi) / 2 }

  /** The outer loop after a turn: over, or going on with a new bracket. */
  datatype Turn = Done(m: int) | Go(lo: int, hi: int)

  function TurnOf(s: seq<int>, lo: int, hi: int): Turn {
    var k, c := (|s| + 1) / 2, CensusOf(s, Guess(lo, hi), lo, hi);
    if c.less <= k && c.greater <= k then
      Done(if c.less >= k then c.maxLt else if c.less + c.equal >= k then Guess(lo, hi) else c.minGt)
    else if c.less > c.greater then Go(lo, c.maxLt)
    else Go(c.minGt, hi)
  }

  /** At most `n` turns. */
  function Run(s: seq<int>, t: Turn, n: nat): Turn
    decreases n
  {
    if n == 0 || t.Done? then t else Run(s, TurnOf(s, t.lo, t.hi), n - 1)
  }

  // ---------------------------------------------------------------- what the turns keep

  /** The bracket: fewer than `k` elements lie below it, at least `k` up to its end. */
  ghost predicate Brackets(s: seq<int>, k: nat, lo: int, hi: int) {
    lo <= hi && lo in s && hi in s && Below(s, lo) < k <= UpTo(s, hi)
  }

  /** Too many elements below the guess: the bracket closes from above. */
  lemma FromAbove(s: seq<int>, k: nat, lo: int, hi: int, guess: int, c: Census)
    requires Brackets(s, k, lo, hi) && Counted(s, guess, lo, hi, c) && c.less >= k
    ensures c.maxLt < guess && Brackets(s, k, lo, c.maxLt)
  {
    BelowUpTo(s, guess, c.maxLt);
    if guess <= lo {
      BelowGrows(s, guess, lo);
    }
  }

  /** Too many above it: the bracket closes from below. */
  lemma FromBelow(s: seq<int>, k: nat, lo: int, hi: int, guess: int, c: Census)
    requires Brackets(s, k, lo, hi) && Counted(s, guess, lo, hi, c) && c.less + c.equal < k
    ensures guess < c.minGt && Brackets(s, k, c.minGt, hi)
  {
    BelowUpTo(s, c.minGt, guess);
    if hi <= guess {
      BelowGrows(s, hi, guess);
    }
  }

  /** The method's three answers. */
  lemma AnswerIsKth(s: seq<int>, k: nat, lo: int, hi: int, guess: int, c: Census)
    requires Brackets(s, k, lo, hi) && Counted(s, guess, lo, hi, c)
    requires c.less <= k && c.greater <= k && k == (|s| + 1) / 2
    ensures Kth(s, k, if c.less >= k then c.maxLt else if c.less + c.equal >= k then guess else c.minGt)
  {
    BelowGrows(s, guess, guess);
    if c.less >= k {
      FromAbove(s, k, lo, hi, guess, c);
      BelowGrows(s, c.maxLt, guess);
    } else if c.less + c.equal < k {
      FromBelow(s, k, lo, hi, guess, c);
      BelowGrows(s, guess, c.minGt);
    }
  }

  /** A turn keeps the median in the bracket or returns it, whether the sum overflows or not. */
  lemma TurnKeeps(s: seq<int>, k: nat, lo: int, hi: int)
    requires Brackets(s, k, lo, hi) && k == (|s| + 1) / 2
    ensures var t := TurnOf(s, lo, hi); if t.Done? then Kth(s, k, t.m) else Brackets(s, k, t.lo, t.hi)
    ensures var t := TurnOf(s, lo, hi); t.Go? && lo <= Guess(lo, hi) <= hi ==> t.hi - t.lo < hi - lo
  {
    var g := Guess(lo, hi);
    var c := CensusOf(s, g, lo, hi);
    CensusCounts(s, g, lo, hi);
    if c.less <= k && c.greater <= k {
      AnswerIsKth(s, k, lo, hi, g, c);
    } else if c.less > c.greater {
      FromAbove(s, k, lo, hi, g, c);
    } else {
      FromBelow(s, k, lo, hi, g, c);
    }
  }

  /** For every array: if the method ends, it returns the median. */
  lemma {:induction false} EndsWithMedian(s: seq<int>, k: nat, t: Turn, n: nat)
    requires k == (|s| + 1) / 2 && if t.Done? then Kth(s, k, t.m) else Brackets(s, k, t.lo, t.hi)
    ensures Run(s, t, n).Done? ==> Kth(s, k, Run(s, t, n).m)
    decreases n
  {
    if n > 0 && t.Go? {
      TurnKeeps(s, k, t.lo, t.hi);
      EndsWithMedian(s, k, TurnOf(s, t.lo, t.hi), n - 1);
    }
  }

  /** The bracket holds the median. */
  lemma MedianInside(s: seq<int>, k: nat, lo: int, hi: int, m: int)
    requires Brackets(s, k, lo, hi) && Kth(s, k, m)
    ensures lo <= m <= hi
  {
    if m < lo { UpToBelow(s, m, lo); }
    if hi < m { UpToBelow(s, hi, m); }
  }

  // ---------------------------------------------------------------- the method

  /** The median plus any element fits into 32 bits: then no sum of bracket ends overflows. */
  ghost predicate SumsFit(s: seq<int>, k: nat) {
    forall m, i | Kth(s, k, m) && 0 <= i < |s| :: Int32(m + s[i])
  }

  /** Among the elements that at least `k` do not exceed, the least is the one. */
  lemma {:induction false} KthExists(s: seq<int>, k: nat, x: int) returns (m: int)
    requires k >= 1 && x in s && k <= UpTo(s, x)
    ensures Kth(s, k, m)
    decreases Below(s, x)
  {
    if Below(s, x) < k {
      return x;
    }
    var y := Largest(s, x);
    BelowUpTo(s, x, y);
    BelowGrows(s, y, x);
    m := KthExists(s, k, y);
  }

  /** The largest element below `x`. */
  lemma {:induction false} Largest(s: seq<int>, x: int) returns (y: int)
    requires Below(s, x) > 0
    ensures y in s && y < x && forall i | 0 <= i < |s| :: s[i] < x ==> s[i] <= y
  {
    var p, z := s[..|s| - 1], s[|s| - 1];
    assert s == p + [z];
    if Below(p, x) == 0 {
      NoneBelowThen(p, x);
      y := z;
    } else {
      y := Largest(p, x);
      if y < z < x {
        y := z;
      }
    }
  }

  lemma {:induction false} NoneBelowThen(s: seq<int>, x: int)
    requires Below(s, x) == 0
    ensures forall i | 0 <= i < |s| :: s[i] >= x
  {
    if s != [] {
      NoneBelowThen(s[..|s| - 1], x);
    }
  }

  lemma GuessInside(s: seq<int>, k: nat, lo: int, hi: int, m: int)
    requires Brackets(s, k, lo, hi) && Kth(s, k, m) && SumsFit(s, k)
    ensures lo <= Guess(lo, hi) <= hi
  {
    MedianInside(s, k, lo, hi, m);
    var i :| 0 <= i < |s| && s[i] == lo;
    var j :| 0 <= j < |s| && s[j] == hi;
    assert Int32(m + s[i]) && Int32(m + s[j]);
  }

  /** The method ends, starting from the extreme elements. */
  ghost predicate Finishes(s: seq<int>) {
    forall lo, hi | lo in s && hi in s && Within(s, lo, hi) :: Ends(s, Go(lo, hi))
  }

  ghost predicate Within(s: seq<int>, lo: int, hi: int) { forall i | 0 <= i < |s| :: lo <= s[i] <= hi }

  ghost predicate Ends(s: seq<int>, t: Turn) { exists n: nat :: Run(s, t, n).Done? }

  /** Median, for exactly the arrays on which it ends. */
  method Median(data: array<int>) returns (m: int)
    requires data.Length >= 1 && Finishes(data[..])
    ensures Kth(data[..], (data.Length + 1) / 2, m)
  {
    hide CensusOf, Kth, Brackets;
    ghost var s := data[..];
    ghost var k := (data.Length + 1) / 2;
    var lo, hi := MinMax(data);
    StartBracket(s, k, lo, hi);
    ghost var left: nat :| Run(s, Go(lo, hi), left).Done?;
    while true
      invariant Brackets(s, k, lo, hi) && Run(s, Go(lo, hi), left).Done?
      decreases left
    {
      TurnKeeps(s, k, lo, hi);
      var guess := Guess(lo, hi);
      var c := Count(data, guess, lo, hi);
      if c.less <= (data.Length + 1) / 2 && c.greater <= (data.Length + 1) / 2 {
        if c.less >= (data.Length + 1) / 2 {
          return c.maxLt;
        } else if c.less + c.equal >= (data.Length + 1) / 2 {
          return guess;
        }
        return c.minGt;
      } else if c.less > c.greater {
        hi := c.maxLt;
      } else {
        lo := c.minGt;
      }
      left := left - 1;
    }
  }

  /** It ends if the median plus any element fits into 32 bits. */
  lemma FitsFinishes(s: seq<int>)
    requires s != [] && SumsFit(s, (|s| + 1) / 2)
    ensures Finishes(s)
  {
    hide SumsFit, Brackets, Kth;
    var k := (|s| + 1) / 2;
    forall lo, hi | lo in s && hi in s && Within(s, lo, hi) ensures Ends(s, Go(lo, hi)) {
      StartBracket(s, k, lo, hi);
      var med := BracketHolds(s, k, lo, hi);
      var n := Closes(s, k, lo, hi, med);
    }
  }

  /** Each turn narrows the bracket then. */
  lemma {:induction false} Closes(s: seq<int>, k: nat, lo: int, hi: int, med: int) returns (n: nat)
    requires Brackets(s, k, lo, hi) && k == (|s| + 1) / 2 && Kth(s, k, med) && SumsFit(s, k)
    ensures Run(s, Go(lo, hi), n).Done?
    decreases hi - lo
  {
    hide SumsFit, Kth, TurnOf;
    TurnKeeps(s, k, lo, hi);
    GuessInside(s, k, lo, hi, med);
    var t := TurnOf(s, lo, hi);
    if t.Done? {
      assert Run(s, Go(lo, hi), 1) == Run(s, t, 0);
      return 1;
    }
    n := Closes(s, k, t.lo, t.hi, med);
    assert Run(s, Go(lo, hi), n + 1) == Run(s, t, n);
    n := n + 1;
  }

  lemma BracketHolds(s: seq<int>, k: nat, lo: int, hi: int) returns (m: int)
    requires Brackets(s, k, lo, hi)
    ensures Kth(s, k, m) && lo <= hi
  {
    m := KthExists(s, k, hi);
  }

  /** The first loop. */
  method MinMax(data: array<int>) returns (min: int, max: int)
    requires data.Length >= 1
    ensures min in data[..] && max in data[..] && forall i | 0 <= i < data.Length :: min <= data[i] <= max
  {
    min, max := data[0], data[0];
    for i := 1 to data.Length
      invariant min in data[..] && max in data[..] && forall j | 0 <= j < i :: min <= data[j] <= max
    {
      if data[i] < min {
        min := data[i];
      }
      if data[i] > max {
        max := data[i];
      }
    }
  }

  lemma StartBracket(s: seq<int>, k: nat, lo: int, hi: int)
    requires 1 <= k <= |s| && lo in s && hi in s && forall i | 0 <= i < |s| :: lo <= s[i] <= hi
    ensures Brackets(s, k, lo, hi)
  {
    NoneBelow(s, lo, hi);
  }

  lemma {:induction false} NoneBelow(s: seq<int>, lo: int, hi: int)
    requires forall i | 0 <= i < |s| :: lo <= s[i] <= hi
    ensures Below(s, lo) == 0 && UpTo(s, hi) == |s|
  {
    if s != [] {
      NoneBelow(s[..|s| - 1], lo, hi);
    }
  }

  // ---------------------------------------------------------------- when a sum overflows

  /** A bracket that a turn leaves as it is stays for ever. */
  lemma {:induction false} Stuck(s: seq<int>, lo: int, hi: int, n: nat)
    requires TurnOf(s, lo, hi) == Go(lo, hi)
    ensures Run(s, Go(lo, hi), n) == Go(lo, hi)
  {
    if n > 0 {
      Stuck(s, lo, hi, n - 1);
    }
  }

  /** If min + max overflows, the method returns exactly for a single element. */
  lemma OverflowAtOnce(s: seq<int>, lo: int, hi: int)
    requires lo in s && hi in s && (forall i | 0 <= i < |s| :: lo <= s[i] <= hi) && Int32(lo) && Int32(hi)
    requires !Int32(lo + hi)
    ensures if |s| == 1 then TurnOf(s, lo, hi) == Done(lo) else forall n: nat :: Run(s, Go(lo, hi), n) == Go(lo, hi)
  {
    var g := Guess(lo, hi);
    CensusCounts(s, g, lo, hi);
    if g < lo { AllAbove(s, g); } else { AllBelow(s, g); }
    var i :| 0 <= i < |s| && s[i] == lo;
    var j :| 0 <= j < |s| && s[j] == hi;
    if |s| > 1 {
      assert TurnOf(s, lo, hi) == Go(lo, hi);
      forall n: nat ensures Run(s, Go(lo, hi), n) == Go(lo, hi) {
        Stuck(s, lo, hi, n);
      }
    }
  }

  lemma {:induction false} RunAdd(s: seq<int>, t: Turn, n: nat, m: nat)
    ensures Run(s, t, n + m) == Run(s, Run(s, t, n), m)
    decreases n
  {
    if n > 0 && t.Go? {
      RunAdd(s, TurnOf(s, t.lo, t.hi), n - 1, m);
    } else if n > 0 && m > 0 {
      RunAdd(s, t, 0, m);
    }
  }

  /** The walk comes to the same bracket twice. */
  ghost predicate Repeats(s: seq<int>, t: Turn) {
    exists i: nat, j: nat :: i < j && Run(s, t, i).Go? && Run(s, t, i) == Run(s, t, j)
  }

  lemma {:induction false} NoEndAfterRepeat(s: seq<int>, t: Turn, i: nat, j: nat, n: nat)
    requires i < j && Run(s, t, i).Go? && Run(s, t, i) == Run(s, t, j)
    ensures Run(s, t, n).Go?
    decreases n
  {
    if n > j {
      RunAdd(s, t, j, n - j);
      RunAdd(s, t, i, n - j);
      NoEndAfterRepeat(s, t, i, j, i + (n - j));
    } else {
      RunAdd(s, t, n, j - n);
    }
  }

  /** All brackets there are. */
  ghost function Pairs(s: seq<int>): set<Turn> { set x, y | x in s && y in s :: Go(x, y) }

  lemma TurnInPairs(s: seq<int>, lo: int, hi: int)
    requires lo in s && hi in s && TurnOf(s, lo, hi).Go?
    ensures TurnOf(s, lo, hi) in Pairs(s)
  {
    CensusCounts(s, Guess(lo, hi), lo, hi);
  }

  ghost predicate Seen(s: seq<int>, t: Turn, n: nat, x: Turn) { exists i: nat :: i < n && Run(s, t, i) == x }

  /** Sooner or later the walk ends or comes back to one of the brackets it has seen. */
  lemma {:induction false} EndsOrReturns(s: seq<int>, t: Turn, n: nat, seen: set<Turn>) returns (i: nat, j: nat)
    requires t in Pairs(s) && Run(s, t, n) in Pairs(s) && seen <= Pairs(s) && Run(s, t, n) !in seen
    requires forall x | x in seen :: Seen(s, t, n, x)
    requires forall i: nat | i < n :: Run(s, t, i) in seen
    ensures Run(s, t, j).Done? || (i < j && Run(s, t, i).Go? && Run(s, t, i) == Run(s, t, j))
    decreases |Pairs(s)| - |seen|
  {
    var x := Run(s, t, n);
    var y := TurnOf(s, x.lo, x.hi);
    RunAdd(s, t, n, 1);
    assert Run(s, x, 1) == Run(s, y, 0) == y;
    hide Run, TurnOf;
    if y.Done? {
      return 0, n + 1;
    }
    TurnInPairs(s, x.lo, x.hi);
    var now := seen + {x};
    if y in now {
      assert y == x || Seen(s, t, n, y);
      i :| i <= n && Run(s, t, i) == y;
      return i, n + 1;
    }
    Smaller(now + {y}, Pairs(s));
    forall q: nat | q < n + 1 ensures Run(s, t, q) in now {
      assert q < n ==> Run(s, t, q) in seen;
    }
    forall z | z in now ensures Seen(s, t, n + 1, z) {
      if z != x {
        var q: nat :| q < n && Run(s, t, q) == z;
        assert q < n + 1;
      }
    }
    i, j := EndsOrReturns(s, t, n + 1, now);
  }

  lemma Smaller(a: set<Turn>, b: set<Turn>)
    requires a <= b
    ensures |a| <= |b|
  {
    assert b == a + (b - a);
  }

  /** The method returns exactly if it never comes to the same bracket twice. */
  lemma EndsExactly(s: seq<int>, lo: int, hi: int)
    requires lo in s && hi in s
    ensures Ends(s, Go(lo, hi)) <==> !Repeats(s, Go(lo, hi))
  {
    var t := Go(lo, hi);
    if Repeats(s, t) {
      var i: nat, j: nat :| i < j && Run(s, t, i).Go? && Run(s, t, i) == Run(s, t, j);
      forall n: nat ensures Run(s, t, n).Go? {
        NoEndAfterRepeat(s, t, i, j, n);
      }
    } else {
      var i, j := EndsOrReturns(s, t, 0, {});
      assert Run(s, t, j).Done?;
    }
  }

  lemma {:induction false} AllAbove(s: seq<int>, g: int)
    requires forall i | 0 <= i < |s| :: s[i] > g
    ensures Below(s, g) == 0 == UpTo(s, g)
  {
    if s != [] { AllAbove(s[..|s| - 1], g); }
  }

  lemma {:induction false} AllBelow(s: seq<int>, g: int)
    requires forall i | 0 <= i < |s| :: s[i] < g
    ensures Below(s, g) == |s| == UpTo(s, g)
  {
    if s != [] { AllBelow(s[..|s| - 1], g); }
  }

  lemma CensusStep(s: seq<int>, x: int, guess: int, lo: int, hi: int)
    ensures CensusOf(s + [x], guess, lo, hi) ==
      var c := CensusOf(s, guess, lo, hi);
      if x < guess then c.(less := c.less + 1, maxLt := if x > c.maxLt then x else c.maxLt)
      else if x > guess then c.(greater := c.greater + 1, minGt := if x < c.minGt then x else c.minGt)
      else c.(equal := c.equal + 1)
  {
    assert (s + [x])[..|s|] == s;
  }

  /** min + max fits, and yet the method never ends: a later sum overflows, and the bracket stays. */
  lemma OverflowLater(s: seq<int>, n: nat)
    requires s == [-0x8000_0000, 0x7fff_fffc, 0x7fff_fffd, 0x7fff_fffe, 0x7fff_ffff]
    ensures Int32(s[0] + s[4]) && Run(s, Go(s[0], s[4]), n).Go?
  {
    var a, b, c, d, e := s[0], s[1], s[2], s[3], s[4];
    CensusFive(a, b, c, d, e, Guess(a, e), a, e);
    CensusFive(a, b, c, d, e, Guess(b, e), b, e);
    assert s == [a, b, c, d, e];
    assert TurnOf(s, a, e) == Go(b, e) && TurnOf(s, b, e) == Go(b, e);
    if n > 0 {
      Stuck(s, b, e, n - 1);
    }
  }

  /** Five elements, `a` below the guess and the others, ascending, above it. */
  lemma CensusFive(a: int, b: int, c: int, d: int, e: int, g: int, lo: int, hi: int)
    requires a < g < b < c < d < e && a <= lo && b < hi
    ensures CensusOf([a, b, c, d, e], g, lo, hi) == Census(1, 0, 4, lo, b)
  {
    CensusStep([], a, g, lo, hi);
    CensusStep([a], b, g, lo, hi);
    CensusStep([a, b], c, g, lo, hi);
    CensusStep([a, b, c], d, g, lo, hi);
    CensusStep([a, b, c, d], e, g, lo, hi);
    assert [] + [a] == [a] && [a] + [b] == [a, b] && [a, b] + [c] == [a, b, c];
    assert [a, b, c] + [d] == [a, b, c, d] && [a, b, c, d] + [e] == [a, b, c, d, e];
  }

  /** An overflow need not be fatal: here the bracket opens again downwards, and closes from above. */
  lemma OverflowRecovers(s: seq<int>)
    requires s == [-0x7fff_ffff, 0, 1, 2, 3, 0x7fff_fffe, 0x7fff_ffff]
    ensures TurnOf(s, s[0], s[6]) == Go(1, s[6]) && !Int32(1 + s[6])
    ensures TurnOf(s, 1, s[6]) == Go(0, s[6]) && Run(s, Go(s[0], s[6]), 4) == Done(2)
  {
    var lo, hi := s[0], s[6];
    CensusSeven(s, 0, lo, hi);
    CensusSeven(s, -0x4000_0000, 1, hi);
    CensusSeven(s, 0x3fff_ffff, 0, hi);
    CensusSeven(s, 1, 0, 3);
    assert TurnOf(s, 0, hi) == Go(0, 3);
    assert TurnOf(s, 0, 3) == Done(2);
    assert Run(s, Go(0, 3), 1) == Run(s, Done(2), 0);
    assert Run(s, Go(0, hi), 2) == Run(s, Go(0, 3), 1);
    assert Run(s, Go(1, hi), 3) == Run(s, Go(0, hi), 2);
  }

  lemma CensusSeven(s: seq<int>, g: int, lo: int, hi: int)
    requires s == [-0x7fff_ffff, 0, 1, 2, 3, 0x7fff_fffe, 0x7fff_ffff]
    requires (g, lo, hi) in {(0, s[0], s[6]), (-0x4000_0000, 1, s[6]), (0x3fff_ffff, 0, s[6]), (1, 0, 3)}
    ensures CensusOf(s, g, lo, hi) == if g == 0 then Census(1, 1, 5, lo, 1) else if g < 0 then Census(1, 0, 6, 1, 0)
                                      else if g > 1 then Census(5, 0, 2, 3, 0x7fff_fffe) else Census(2, 1, 4, 0, 2)
  {
    CensusStep([], s[0], g, lo, hi);
    forall i | 0 <= i < 7 ensures s[..i + 1] == s[..i] + [s[i]] {}
    CensusStep(s[..1], s[1], g, lo, hi);
    CensusStep(s[..2], s[2], g, lo, hi);
    CensusStep(s[..3], s[3], g, lo, hi);
    CensusStep(s[..4], s[4], g, lo, hi);
    CensusStep(s[..5], s[5], g, lo, hi);
    CensusStep(s[..6], s[6], g, lo, hi);
    assert [] + [s[0]] == s[..1] && s[..7] == s;
  }
}
