/**
 Kernel lists (include/list.h) as sequences, head first. For walking a list that changes under the loop, a
 list is the sequence of its entries' ids: list_for_each_entry_safe saves the next entry before its body
 runs, and moves on to it wherever it is linked by then.
 */
module KernelList {
  const HEAD: int := -1  // the list head, which ends the walk

  /** No entry is linked twice. */
  ghost predicate NoRepeat<T(!new)>(l: seq<T>) { forall i, j | 0 <= i < j < |l| :: l[i] != l[j] }

  /** list_del. */
  function Without<T(==)>(l: seq<T>, x: T): seq<T> {
    if l == [] then [] else if l[0] == x then l[1..] else [l[0]] + Without(l[1..], x)
  }

  lemma {:induction false} WithoutIs<T(!new)>(l: seq<T>, x: T)
    requires NoRepeat(l)
    ensures NoRepeat(Without(l, x)) && forall y :: y in Without(l, x) <==> y in l && y != x
  {
    if l != [] {
      WithoutIs(l[1..], x);
      assert forall y :: y in l <==> y == l[0] || y in l[1..];
      assert l[0] !in l[1..];
      if l[0] != x {
        var r := Without(l[1..], x);
        assert forall y :: y in [l[0]] + r <==> y == l[0] || y in r;
      }
    }
  }

  /** Where an entry is linked. */
  function IndexIn(ids: seq<nat>, id: int): (i: nat)
    ensures i <= |ids|
  {
    if ids == [] || ids[0] == id then 0 else 1 + IndexIn(ids[1..], id)
  }

  lemma {:induction false} IndexInAt(ids: seq<nat>, i: nat)
    requires NoRepeat(ids) && i < |ids|
    ensures IndexIn(ids, ids[i]) == i
  {
    if i > 0 {
      IndexInAt(ids[1..], i - 1);
    }
  }

  function IdOf(ids: seq<nat>, k: nat): int { if k < |ids| then ids[k] else HEAD }

  /** The `next` pointer of an entry, or of the list head. */
  function After(ids: seq<nat>, id: int): int {
    if id == HEAD then IdOf(ids, 0) else IdOf(ids, IndexIn(ids, id) + 1)
  }

  lemma AfterAt(ids: seq<nat>, i: nat)
    requires NoRepeat(ids) && i < |ids|
    ensures After(ids, ids[i]) == IdOf(ids, i + 1)
  {
    IndexInAt(ids, i);
  }
}
