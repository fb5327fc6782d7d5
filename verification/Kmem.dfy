/**
 The kernel heap of kernel/kmem.c (CONFIG_MMU): kmalloc, kfree and krealloc over the chunk chain. The
 answers of kernel_sbrk are arguments: it either refuses a request or moves the break by at least that
 much. Header fields live in the chain, the bytes of the data areas in `mem`. Sizes are 32-bit numbers.
 */
module Kmem {
  import opened KmemChain
  import opened KernelList

  /** What kernel_sbrk does with a request to grow: `extra` is what it adds on top. */
  datatype Answer = Refused | Granted(extra: nat)

  const LIMIT: int := 0x1_0000_0000         // of the address space and of size_t
  const MAX_SIZE: int := LIMIT - HDR - 8    // the largest size that can be asked for

  /** WORD_ALIGN(size + sizeof(struct kmem)) in 32 bits. */
  function Len32(size: nat): (len: int)
    ensures len % 8 == 0 && 0 <= len
  {
    (size + HDR + 7) % LIMIT / 8 * 8
  }

  /** Up to MAX_SIZE the length is the one wanted; beyond, it wraps to at most a header. */
  lemma LenWraps(size: nat)
    requires size < LIMIT
    ensures size <= MAX_SIZE ==> Len32(size) == Align8(size + HDR) >= size + HDR
    ensures size > MAX_SIZE ==> Len32(size) <= HDR
  {}

  lemma Wrapped(d: int)
    requires -HDR <= d < LIMIT
    ensures d % LIMIT == if d >= 0 then d else d + LIMIT
  {}

  /** Does the break move for this request, within the address space? A request for nothing only asks where it is. */
  predicate Grows(brk: int, request: int, answer: Answer, top: int) {
    request == 0 || (answer.Granted? && brk + request + answer.extra <= top)
  }

  function NewBreak(brk: int, request: int, answer: Answer): int {
    if request == 0 || answer.Refused? then brk else brk + request + answer.extra
  }

  /** What kmalloc asks of kernel_sbrk when no free chunk fits. */
  function Request(cs: seq<Chunk>, len: int): int {
    if cs != [] && cs[|cs| - 1].free then len - cs[|cs| - 1].size else len
  }

  /** A fresh chunk at the break; its size is a 32-bit number. */
  function FreshAt(brk: int, len: int, answer: Answer): Chunk {
    Chunk(brk, (NewBreak(brk, len, answer) - brk - HDR) % LIMIT, false)
  }

  /** A fresh chunk that got less than its header takes. */
  ghost predicate Headless(cs: seq<Chunk>, brk: int, len: int, answer: Answer) {
    !Fits(cs, len) && !LastFree(cs) && NewBreak(brk, len, answer) < brk + HDR
  }

  /** Every address holds a byte. */
  ghost predicate Total(mem: imap<int, int>) { forall a: int :: a in mem }

  function LastAddr(init: int, cs: seq<Chunk>): int { if cs == [] then init else cs[|cs| - 1].addr }

  ghost predicate LastFree(cs: seq<Chunk>) { cs != [] && cs[|cs| - 1].free }

  /** Freeing the chunk at `ptr` leaves a free chunk at the end. */
  ghost predicate EndsFree(cs: seq<Chunk>, ptr: int) {
    LastFree(cs) || (cs != [] && cs[|cs| - 1].Data() == ptr)
  }

  /** The chain seen with the chunk `t` in use, whatever its flag says. */
  function View(cs: seq<Chunk>, t: int): (v: seq<Chunk>)
    ensures |v| == |cs|
  {
    if 0 <= t < |cs| then cs[t := cs[t].(free := false)] else cs
  }

  class Heap {
    const init: int           // _kmem_init
    const releaseUnused: bool // CONFIG_KMEM_RELEASE_UNUSED, not in the background
    const lazy: bool          // CONFIG_KMEM_RELEASE_UNUSED_LAZY
    const releaseMax: nat     // CONFIG_PAGES_RELEASE_MAX * PAGE_SIZE
    const top: int            // the end of the address range of kernel_sbrk
    var chunks: seq<Chunk>
    var freeList: seq<int>
    var last: int
    var avail: int
    var allocFail: bool
    var brk: int
    var mem: imap<int, int>   // the bytes of the data areas

    /** Between two steps of a call: the chunk `t` is off the list, the others are accounted for. */
    ghost predicate Open(t: int)
      reads this
    {
      0 <= t < |chunks| && Consistent(View(chunks, t), freeList, avail, init + HDR, brk) && brk % 8 == 0
    }

    ghost predicate Frame()
      reads this
    {
      init > 0 && init % 8 == 0 && brk % 8 == 0 && releaseMax % 8 == 0 && brk <= top <= LIMIT && Total(mem)
    }

    ghost predicate Valid()
      reads this
    {
      && Frame() && Consistent(chunks, freeList, avail, init + HDR, brk) && last == LastAddr(init, chunks)
    }

    /** kmem_init: the initial header stands at the old break. */
    constructor (start: int, extra: nat, mem: imap<int, int>, top: int, releaseUnused: bool, lazy: bool,
                 releaseMax: nat)
      requires start > 0 && start % 8 == 0 && extra % 8 == 0 && releaseMax % 8 == 0 && Total(mem)
      requires start + HDR + extra <= top <= LIMIT
      ensures Valid() && chunks == [] && init == start && brk == start + HDR + extra && this.top == top
              && this.mem == mem
      ensures this.releaseUnused == releaseUnused && this.lazy == lazy && this.releaseMax == releaseMax
      ensures Tight(chunks, init + HDR, brk) <==> extra == 0
    {
      hide Consistent, Tight;
      init, brk, last := start, start + HDR + extra, start;
      this.releaseUnused, this.lazy, this.releaseMax, this.top := releaseUnused, lazy, releaseMax, top;
      chunks, freeList, avail, allocFail, this.mem := [], [], 0, false, mem;
      EmptyChain(start + HDR, start + HDR + extra);
    }

    /** kmem_find_free_chunk: first fit along the list; the chunk found is taken off it. */
    method FindFreeChunk(size: int) returns (i: int)
      requires Valid()
      modifies this`freeList
      ensures i == -1 ==> freeList == old(freeList) && forall c | c in chunks && c.free :: c.size < size
      ensures i != -1 ==> 0 <= i < |chunks| && chunks[i].free && chunks[i].size >= size
      ensures i != -1 ==> freeList == Without(old(freeList), chunks[i].addr)
      ensures i != -1 ==> FirstFit(chunks, old(freeList), i, size)
    {
      var n := 0;
      while n < |freeList|
        invariant n <= |freeList| && freeList == old(freeList)
        invariant forall c | c in chunks && c.free && c.addr in freeList[..n] :: c.size < size
      {
        i := Locate(freeList[n]);
        if chunks[i].size >= size {
          freeList := Without(freeList, chunks[i].addr);
          return;
        }
        OnlyOne(chunks, init + HDR, brk, i);
        n := n + 1;
      }
      assert freeList[..n] == freeList;
      forall c | c in chunks && c.free ensures c.size < size {
        var k :| 0 <= k < |chunks| && chunks[k] == c;
        AddrOnList(chunks, freeList, init + HDR, brk, k);
      }
      return -1;
    }

    /** Follow a pointer to a header: where in the chain is it? */
    method Locate(a: int) returns (i: int)
      requires FreeAt(chunks, a)
      requires Ordered(chunks, init + HDR, brk)
      ensures 0 <= i < |chunks| && chunks[i].addr == a && chunks[i].free
    {
      i := 0;
      ghost var k :| 0 <= k < |chunks| && chunks[k].addr == a && chunks[k].free;
      while chunks[i].addr != a
        invariant 0 <= i <= k
      {
        i := i + 1;
      }
      SameAddr(chunks, init + HDR, brk, i, k);
    }

    /** kmem_split of the chunk `t`: the list order, the count and the chain's end follow. */
    method Split(t: int, size: int)
      requires 0 <= t < |chunks| && 0 <= size && size % 8 == 0 && chunks[t].addr % 8 == 0
      requires last == LastAddr(init, chunks)
      modifies this`chunks, this`freeList, this`avail, this`last
      ensures last == LastAddr(init, chunks)
      ensures size + HDR <= old(chunks)[t].size ==>
                && chunks == Replace(old(chunks), t, t + 1, Halves(old(chunks)[t], size))
                && freeList == old(freeList) + [Upper(old(chunks)[t], size).addr]
                && avail == old(avail) + Upper(old(chunks)[t], size).size
      ensures size + HDR > old(chunks)[t].size ==> unchanged(this)
    {
      var k := chunks[t];
      var split := Align8(k.Data() + size);
      assert split == k.Data() + size;
      var len := split - k.Data();
      if k.size < len + HDR {
        return;
      }
      var upper := Chunk(split, k.size - len - HDR, true);
      chunks := chunks[..t] + [Chunk(k.addr, len, k.free), upper] + chunks[t + 1..];
      if t + 2 == |chunks| {
        last := split;
      }
      avail := avail + upper.size;
      freeList := freeList + [split];
    }

    /** The exit of kmalloc: the chunk `t` is marked as in use. */
    method Settle(t: int) returns (ptr: int)
      requires Open(t) && Frame() && last == LastAddr(init, chunks)
      modifies this`chunks
      ensures Valid() && chunks == View(old(chunks), t) && 0 < ptr == chunks[t].Data()
    {
      hide Sound;
      ChunkAligned(View(chunks, t), freeList, avail, init + HDR, brk, t);
      chunks := chunks[t := chunks[t].(free := false)];
      return chunks[t].Data();
    }

    /** kmalloc with the chunk `i` found on the list. */
    method UseFree(i: int, len: int) returns (ptr: int, ghost c: Chunk)
      requires Frame() && last == LastAddr(init, chunks)
      requires 0 <= i < |chunks| && chunks[i].free && len % 8 == 0 && 0 <= len <= chunks[i].size
      requires Consistent(View(chunks, i), freeList, avail - chunks[i].size, init + HDR, brk)
      requires Merged(chunks) && Ordered(chunks, init + HDR, brk)
      modifies this`chunks, this`freeList, this`avail, this`last
      ensures Valid() && LiveOf(chunks) == LiveOf(old(chunks)) + {c} && c !in old(chunks)
      ensures 0 < ptr == c.Data() && len <= c.size <= len + HDR && c.addr == old(chunks)[i].addr
      ensures Tight(old(chunks), init + HDR, brk) ==> Tight(chunks, init + HDR, brk)
      ensures OthersStay(old(chunks), chunks, c)
    {
      hide Sound, LiveOf, Ordered, Tight, Merged, OthersStay;
      ghost var was := chunks;
      avail := avail - chunks[i].size;
      if len + HDR < chunks[i].size {
        ptr, c := UseLower(i, len);
      } else {
        c := was[i].(free := false);
        ViewChain(was, init + HDR, brk, i);
        ptr := Settle(i);
        ReplaceOne(was, i, c);
        LiveGain(was, i, [c], c);
        OthersReplaced(was, i, [c], c);
      }
      NewlyLive(was, init + HDR, brk, i, c);
    }

    /** The chunk is larger than needed: it is split and the lower part used. */
    method UseLower(i: int, len: int) returns (ptr: int, ghost c: Chunk)
      requires Frame() && last == LastAddr(init, chunks)
      requires 0 <= i < |chunks| && chunks[i].free && len % 8 == 0 && 0 <= len && len + HDR < chunks[i].size
      requires Consistent(View(chunks, i), freeList, avail, init + HDR, brk) && Merged(chunks)
      modifies this`chunks, this`freeList, this`avail, this`last
      ensures Valid() && LiveOf(chunks) == LiveOf(old(chunks)) + {c} && c == Chunk(old(chunks)[i].addr, len, false)
      ensures 0 < ptr == c.Data()
      ensures Tight(old(chunks), init + HDR, brk) ==> Tight(chunks, init + HDR, brk)
      ensures OthersStay(old(chunks), chunks, c)
    {
      hide Sound, LiveOf, Ordered, Tight, Merged, OthersStay;
      ghost var was := chunks;
      ChunkAligned(View(chunks, i), freeList, avail, init + HDR, brk, i);
      SplitStep(View(chunks, i), freeList, avail, init + HDR, brk, i, len);
      Split(i, len);
      c := Chunk(was[i].addr, len, false);
      SplitChain(was, init + HDR, brk, i, len);
      SplitView(was, i, len);
      ptr := Settle(i);
      LiveGain(was, i, [c, Upper(was[i], len)], c);
      OthersReplaced(was, i, [c, Upper(was[i], len)], c);
    }

    /** kmalloc with the last chunk free but too small: it reaches up to the new break. */
    method ExpandLast(len: int, extra: nat) returns (ptr: int, ghost c: Chunk)
      requires Valid() && chunks != [] && chunks[|chunks| - 1].free && chunks[|chunks| - 1].size < len
      requires len % 8 == 0 && extra % 8 == 0 && brk + Request(chunks, len) + extra <= top
      modifies this`chunks, this`freeList, this`avail, this`brk
      ensures Valid() && LiveOf(chunks) == LiveOf(old(chunks)) + {c} && c !in old(chunks)
      ensures 0 < ptr == c.Data() && c.size >= len && c.addr == LastAddr(init, old(chunks))
      ensures brk == old(brk) + len - old(chunks)[|old(chunks)| - 1].size + extra
      ensures Tight(old(chunks), init + HDR, old(brk)) ==> Tight(chunks, init + HDR, brk)
      ensures OthersStay(old(chunks), chunks, c)
    {
      hide Sound, LiveOf, Ordered, OthersStay, Tight, Merged;
      ghost var was, hi := chunks, brk;
      var n := |chunks| - 1;
      TakeStep(chunks, freeList, avail, init + HDR, brk, n);
      LastRoom(chunks, freeList, avail, init + HDR, brk);
      OrderOf(chunks, freeList, avail, init + HDR, brk);
      brk := brk + (len - chunks[n].size) + extra;
      freeList := Without(freeList, chunks[n].addr);
      avail := avail - chunks[n].size;
      GrowStep(View(was, n), freeList, avail, init + HDR, hi, brk);
      chunks := chunks[n := chunks[n].(size := brk - chunks[n].addr - HDR)];
      c := chunks[n].(free := false);
      assert View(chunks, n) == View(was, n)[n := c];
      ptr := Settle(n);
      assert chunks == was[n := c];
      Expanded(was, c, init + HDR, hi, brk);
    }

    /** kmalloc with a fresh chunk between the old break and the new one; its size is computed in 32 bits. */
    method FreshChunk(len: int, answer: Answer) returns (ptr: int, ghost c: Chunk)
      requires Valid() && len % 8 == 0 && len >= 0 && Grows(brk, len, answer, top)
      requires answer.Granted? ==> answer.extra % 8 == 0
      modifies this`chunks, this`last, this`brk
      ensures chunks == old(chunks) + [c] && c !in old(chunks) && !c.free && c.addr == old(brk) && 0 < ptr == c.Data()
      ensures brk == NewBreak(old(brk), len, answer) && c.size == (brk - old(brk) - HDR) % LIMIT
      ensures brk >= old(brk) + HDR ==> Valid() && c.size == brk - old(brk) - HDR
      ensures brk < old(brk) + HDR ==> c.End() > brk
      ensures Tight(old(chunks), init + HDR, old(brk)) && brk >= old(brk) + HDR ==> Tight(chunks, init + HDR, brk)
    {
      hide Sound, Tight, Merged;
      BelowBreak(chunks, freeList, avail, init + HDR, brk);
      hide Consistent;
      var k := brk;
      brk := NewBreak(brk, len, answer);
      Wrapped(brk - k - HDR);
      var size := (brk - k - HDR) % LIMIT;
      if brk >= k + HDR {
        AppendStep(chunks, freeList, avail, init + HDR, k, brk);
        AppendTight(chunks, init + HDR, k, brk);
      }
      c := Chunk(k, size, false);
      chunks := chunks + [Chunk(k, size, false)];
      last := k;
      return k + HDR, c;
    }

    /**
     kmalloc: NULL exactly for a zero size, or when no free chunk is large enough and the break stays. The
     block holds the bytes asked for exactly up to MAX_SIZE; beyond, the length has wrapped.
     */
    method Kmalloc(size: nat, answer: Answer) returns (ptr: int, ghost c: Chunk)
      requires Valid() && size < LIMIT && (answer.Granted? ==> answer.extra % 8 == 0)
      modifies this`chunks, this`freeList, this`avail, this`last, this`brk, this`allocFail
      ensures var len := Len32(size);
              ptr == 0 <==>
                size == 0 || (!Fits(old(chunks), len) && !Grows(old(brk), Request(old(chunks), len), answer, top))
      ensures Valid() <==> ptr == 0 || !Headless(old(chunks), old(brk), Len32(size), answer)
      ensures size <= MAX_SIZE ==> Valid()
      ensures ptr == 0 ==> unchanged(this`chunks, this`freeList, this`avail, this`last, this`brk)
      ensures allocFail == (old(allocFail) || (ptr == 0 && size != 0))
      ensures ptr != 0 ==> ptr == c.Data() && LiveOf(chunks) == LiveOf(old(chunks)) + {c} && c !in old(chunks)
      ensures ptr != 0 ==> OthersStay(old(chunks), chunks, c)
      ensures ptr != 0 && Valid() ==> ptr % 8 == 0 && (c.size >= size <==> size <= MAX_SIZE)
      ensures ptr != 0 && !Valid() ==> c.End() > brk && chunks == old(chunks) + [c] && c.addr == old(brk)
      ensures size > 0 && Fits(old(chunks), Len32(size)) ==>
                && brk == old(brk) && c.size <= Len32(size) + HDR
                && exists i :: 0 <= i < |old(chunks)| && old(chunks)[i].addr == c.addr
                               && FirstFit(old(chunks), old(freeList), i, Len32(size))
      ensures ptr != 0 && !Fits(old(chunks), Len32(size)) && !LastFree(old(chunks)) ==>
                && chunks == old(chunks) + [c] && c == FreshAt(old(brk), Len32(size), answer)
                && brk == NewBreak(old(brk), Len32(size), answer)
      ensures Tight(old(chunks), init + HDR, old(brk)) && Valid() ==> Tight(chunks, init + HDR, brk)
    {
      hide Sound, LiveOf, Ordered, Tight, FirstFit, Len32, FreshAt, OthersStay;
      ptr, c := 0, Chunk(0, 0, false);
      if size == 0 {
        return;
      }
      var len := Len32(size);
      LenWraps(size);
      ghost var was := chunks;
      ghost var l := freeList;
      var i := FindFreeChunk(len);
      if i != -1 {
        TakeStep(was, l, avail, init + HDR, brk, i);
        OrderOf(was, l, avail, init + HDR, brk);
        ptr, c := UseFree(i, len);
        LivePlace(chunks, freeList, avail, init + HDR, brk, c);
      } else {
        ptr, c := Extend(len, answer);
      }
      if ptr == 0 {
        allocFail := true;
      }
    }

    /** kmalloc when no free chunk is large enough: the last one grows if it is free, otherwise a fresh one comes. */
    method Extend(len: int, answer: Answer) returns (ptr: int, ghost c: Chunk)
      requires Valid() && len % 8 == 0 && len >= 0 && (answer.Granted? ==> answer.extra % 8 == 0)
      requires !Fits(chunks, len)
      modifies this`chunks, this`freeList, this`avail, this`last, this`brk
      ensures ptr == 0 <==> !Grows(old(brk), Request(old(chunks), len), answer, top)
      ensures Valid() <==> ptr == 0 || !Headless(old(chunks), old(brk), len, answer)
      ensures ptr == 0 ==> unchanged(this`chunks, this`freeList, this`avail, this`last, this`brk)
      ensures ptr != 0 ==> ptr == c.Data() && LiveOf(chunks) == LiveOf(old(chunks)) + {c} && c !in old(chunks)
      ensures ptr != 0 ==> OthersStay(old(chunks), chunks, c)
      ensures ptr != 0 && Valid() ==> ptr % 8 == 0 && len - HDR <= c.size && c.End() <= brk && c.addr > init
      ensures ptr != 0 && !Valid() ==> c.End() > brk && chunks == old(chunks) + [c] && c.addr == old(brk)
      ensures ptr != 0 && !LastFree(old(chunks)) ==>
                && chunks == old(chunks) + [c] && c == FreshAt(old(brk), len, answer)
                && brk == NewBreak(old(brk), len, answer)
      ensures Tight(old(chunks), init + HDR, old(brk)) && Valid() ==> Tight(chunks, init + HDR, brk)
    {
      hide Sound, LiveOf, Ordered, Tight, Merged;
      ptr, c := 0, Chunk(0, 0, false);
      ghost var was := chunks;
      if chunks != [] && chunks[|chunks| - 1].free {
        var request := len - chunks[|chunks| - 1].size;
        assert chunks[|chunks| - 1] in chunks;
        if Grows(brk, request, answer, top) {
          ptr, c := ExpandLast(len, answer.extra);
          LivePlace(chunks, freeList, avail, init + HDR, brk, c);
        }
      } else if Grows(brk, len, answer, top) {
        ghost var at := brk;
        ptr, c := FreshChunk(len, answer);
        LiveAppend(was, c);
        if brk >= at + HDR {
          LivePlace(chunks, freeList, avail, init + HDR, brk, c);
        } else {
          Overruns(chunks, freeList, avail, init + HDR, brk, c);
        }
      }
    }

    /** kfree, first half: the chunk `i`, marked free but not listed yet, swallows a free successor. */
    method MergeNext(i: int)
      requires Open(i) && chunks[i].free
      modifies this`chunks, this`freeList, this`avail
      ensures Open(i) && chunks[i].free && LiveOf(chunks) == LiveOf(old(chunks))
      ensures i + 1 < |chunks| ==> !chunks[i + 1].free && LastAddr(init, chunks) == LastAddr(init, old(chunks))
      ensures LastFree(chunks) <==> LastFree(old(chunks))
      ensures Tight(old(chunks), init + HDR, brk) ==> Tight(chunks, init + HDR, brk)
      ensures chunks[..i] == old(chunks)[..i] && chunks[i].addr == old(chunks)[i].addr
      ensures freeList == Unlisted(old(freeList), old(chunks), i + 1)
    {
      hide Sound, LiveOf, Tight, Merged, Replace, LastAddr;
      if i + 1 < |chunks| && chunks[i + 1].free {
        ghost var was := chunks;
        JoinStep(View(chunks, i), freeList, avail, init + HDR, brk, i);
        LiveSame(chunks, i, i + 2, [Swallow(chunks[i], chunks[i + 1])]);
        freeList := Without(freeList, chunks[i + 1].addr);
        avail := avail - chunks[i + 1].size;
        Merge(i);
        JoinedNext(was, i, init);
      }
    }

    /** kmem_merge. */
    method Merge(k: int)
      requires 0 <= k && k + 1 < |chunks|
      modifies this`chunks
      ensures chunks == Replace(old(chunks), k, k + 2, [Swallow(old(chunks)[k], old(chunks)[k + 1])])
      ensures |chunks| == |old(chunks)| - 1 && chunks[..k] == old(chunks)[..k] && chunks[k].addr == old(chunks)[k].addr
      ensures Tight(old(chunks), init + HDR, brk) ==> Tight(chunks, init + HDR, brk)
    {
      ghost var was := chunks;
      chunks := chunks[..k] + [Swallow(chunks[k], chunks[k + 1])] + chunks[k + 2..];
      MergeTight(was, k, init + HDR, brk);
    }

    /** kfree, second half: a free predecessor swallows the chunk. */
    method MergePrev(i: int) returns (t: int)
      requires Open(i) && chunks[i].free && (i + 1 < |chunks| ==> !chunks[i + 1].free)
      modifies this`chunks, this`freeList, this`avail
      ensures Open(t) && chunks[t].free && LiveOf(chunks) == LiveOf(old(chunks))
      ensures t + 1 < |chunks| ==> !chunks[t + 1].free && LastAddr(init, chunks) == LastAddr(init, old(chunks))
      ensures t > 0 ==> !chunks[t - 1].free
      ensures (t + 1 < |chunks| <==> i + 1 < |old(chunks)|) && (LastFree(chunks) <==> LastFree(old(chunks)))
      ensures Tight(old(chunks), init + HDR, brk) ==> Tight(chunks, init + HDR, brk)
      ensures freeList == Unlisted(old(freeList), old(chunks), i - 1)
      ensures chunks[t].addr == if i > 0 && old(chunks)[i - 1].free then old(chunks)[i - 1].addr
                else old(chunks)[i].addr
    {
      hide Sound, LiveOf, Tight, Merged, Replace, LastAddr;
      t := i;
      if i > 0 && chunks[i - 1].free {
        ghost var was := chunks;
        t := i - 1;
        JoinStep(View(chunks, i), freeList, avail, init + HDR, brk, t);
        LiveSame(chunks, t, i + 1, [Swallow(chunks[t], chunks[i])]);
        freeList := Without(freeList, chunks[t].addr);
        avail := avail - chunks[t].size;
        Merge(t);
        JoinedPrev(was, t, init);
      }
    }

    /** kfree on the chunk `i` in use. */
    method Release(i: int, honoured: bool)
      requires Valid() && 0 <= i < |chunks| && !chunks[i].free
      modifies this`chunks, this`freeList, this`avail, this`last, this`brk
      ensures Valid() && LiveOf(chunks) == LiveOf(old(chunks)) - {old(chunks)[i]}
      ensures releaseUnused && (!lazy || releaseMax == 0) ==> !LastFree(chunks)
      ensures brk <= old(brk) && (!releaseUnused || !honoured ==> brk == old(brk))
      ensures !releaseUnused ==> Relisted(old(freeList), old(chunks), i, freeList)
      ensures Tight(old(chunks), init + HDR, old(brk)) ==>
                (Tight(chunks, init + HDR, brk) <==>
                   honoured || !(releaseUnused && (LastFree(old(chunks)) || i + 1 == |old(chunks)|)))
    {
      hide Sound, LiveOf, Tight, LastFree, Without, Unlisted;
      ghost var was := chunks;
      chunks := chunks[i := chunks[i].(free := true)];
      assert View(chunks, i) == was;
      LiveDrop(was, freeList, avail, init + HDR, brk, i);
      FlagTight(was, i, init + HDR, brk);
      assert LastAddr(init, chunks) == last;
      UnlistedSame(freeList, was, chunks, i + 1);
      MergeNext(i);
      assert i > 0 ==> chunks[i - 1] == chunks[..i][i - 1] == was[i - 1];
      UnlistedSame(freeList, was, chunks, i - 1);
      var t := MergePrev(i);
      GiveStep(View(chunks, t), freeList, avail, init + HDR, brk, t);
      assert chunks == View(chunks, t)[t := View(chunks, t)[t].(free := true)];
      avail := avail + chunks[t].size;
      if t + 1 == |chunks| {
        last := chunks[t].addr;
      }
      freeList := freeList + [chunks[t].addr];
      if releaseUnused {
        ReleaseUnused(honoured);
      }
    }

    /** kmem_lazy_release: a large last chunk is split, so that only its upper part will be given up. */
    method LazyRelease()
      requires Valid() && chunks != [] && chunks[|chunks| - 1].free
      modifies this`chunks, this`freeList, this`avail, this`last
      ensures Sound(chunks, freeList, avail, init + HDR, brk) && last == LastAddr(init, chunks)
      ensures var n := |old(chunks)| - 1;
              if releaseMax == 0 || old(chunks)[n].size <= HDR + releaseMax then unchanged(this)
              else chunks == old(chunks)[..n] + Halves(old(chunks)[n], old(chunks)[n].size - HDR - releaseMax)
    {
      hide Sound;
      if releaseMax == 0 {
        return;
      }
      var n := |chunks| - 1;
      var k := chunks[n];
      if k.size <= HDR + releaseMax {
        return;
      }
      ghost var was, l, a := chunks, freeList, avail;
      ghost var len := k.size - HDR - releaseMax;
      ChunkAligned(chunks, freeList, avail, init + HDR, brk, n);
      LazyStep(was, l, a, init + HDR, brk, len);
      Split(n, k.size - HDR - releaseMax);
      avail := avail - k.size;
      avail := avail + chunks[n].size;
      freeList := Without(freeList, k.addr) + [k.addr];
      assert chunks == was[..n] + Halves(k, len);
    }

    /** kmem_release_unused: a free last chunk goes back to the break, `honoured` tells whether that moved. */
    method ReleaseUnused(honoured: bool)
      requires Valid()
      modifies this`chunks, this`freeList, this`avail, this`last, this`brk
      ensures Valid() && LiveOf(chunks) == LiveOf(old(chunks)) && brk <= old(brk) && (!honoured ==> brk == old(brk))
      ensures !LastFree(old(chunks)) ==> unchanged(this)
      ensures !lazy || releaseMax == 0 ==> !LastFree(chunks)
      ensures LastFree(old(chunks)) ==>
                var n := |old(chunks)| - 1; var k := old(chunks)[n];
                if lazy && releaseMax != 0 && k.size > HDR + releaseMax then
                  && chunks == old(chunks)[..n] + [k.(size := k.size - HDR - releaseMax)]
                  && brk == old(brk) - if honoured then HDR + releaseMax else 0
                else
                  chunks == old(chunks)[..n] && brk == old(brk) - if honoured then HDR + k.size else 0
      ensures LastFree(old(chunks)) && Tight(old(chunks), init + HDR, old(brk)) ==>
                (Tight(chunks, init + HDR, brk) <==> honoured)
    {
      hide Sound, LiveOf, FreeBytes, Tight, Merged, Without;
      if chunks == [] || !chunks[|chunks| - 1].free {
        return;
      }
      ghost var was, hi := chunks, brk;
      LastUsed(was);
      if lazy {
        LazyRelease();
      }
      LastRoom(chunks, freeList, avail, init + HDR, brk);
      DropChain(was, chunks, init + HDR, hi, if chunks == was then 0 else chunks[|chunks| - 2].size);
      DropLast(honoured);
    }

    /** The free last chunk leaves the chain, and its memory goes with it if the break moves. */
    method DropLast(honoured: bool)
      requires Frame() && Sound(chunks, freeList, avail, init + HDR, brk) && last == LastAddr(init, chunks)
      requires chunks != [] && chunks[|chunks| - 1].free && Merged(chunks[..|chunks| - 1])
      modifies this`chunks, this`freeList, this`avail, this`last, this`brk
      ensures var n := |old(chunks)| - 1;
              && Valid() && chunks == old(chunks)[..n]
              && brk == if honoured then old(brk) - old(chunks)[n].size - HDR else old(brk)
    {
      hide Sound, Merged, Without, Total, Consistent;
      var n := |chunks| - 1;
      var k := chunks[n];
      DropKeeps(chunks, freeList, avail, init + HDR, brk, k, if honoured then brk - (k.size + HDR) else brk);
      last := if n == 0 then init else chunks[n - 1].addr;
      chunks := chunks[..n];
      avail := avail - k.size;
      freeList := Without(freeList, k.addr);
      if honoured {
        brk := brk - (k.size + HDR);
      }
    }

    /** Where a header with this data pointer is, if there is one. */
    method HeaderOf(ptr: int) returns (i: int)
      ensures i == -1 ==> forall c | c in chunks :: c.Data() != ptr
      ensures i != -1 ==> 0 <= i < |chunks| && chunks[i].Data() == ptr
    {
      i := 0;
      while i < |chunks|
        invariant 0 <= i <= |chunks| && forall c | c in chunks[..i] :: c.Data() != ptr
      {
        if chunks[i].Data() == ptr {
          return;
        }
        i := i + 1;
      }
      return -1;
    }

    /** The address checks of kfree and krealloc. */
    method Tracked(ptr: int) returns (i: int)
      requires Valid()
      ensures i == -1 ==> forall c | c in chunks :: c.Data() != ptr
      ensures i != -1 ==> 0 <= i < |chunks| && chunks[i].Data() == ptr
                          && forall c | c in chunks && c.Data() == ptr :: c == chunks[i]
    {
      hide Sound, Tight, Merged;
      if ptr < init || ptr > brk {
        OutOfHeap(chunks, freeList, avail, init + HDR, brk, ptr);
        return -1;
      }
      i := HeaderOf(ptr);
      if i != -1 {
        OneAt(chunks, freeList, avail, init + HDR, brk, i);
      }
    }

    /** kfree: exactly the chunk in use at `ptr` goes; a pointer to no chunk, or to a free one, is refused. */
    method Kfree(ptr: int, honoured: bool)
      requires Valid()
      modifies this`chunks, this`freeList, this`avail, this`last, this`brk
      ensures Valid() && LiveOf(chunks) == set c | c in LiveOf(old(chunks)) && c.Data() != ptr
      ensures (forall c | c in old(chunks) && !c.free :: c.Data() != ptr) ==> unchanged(this)
      ensures releaseUnused && (!lazy || releaseMax == 0) ==>
                (exists c :: c in old(chunks) && !c.free && c.Data() == ptr) ==> !LastFree(chunks)
      ensures brk <= old(brk) && (!releaseUnused || !honoured ==> brk == old(brk))
      ensures !releaseUnused && (exists c :: c in old(chunks) && !c.free && c.Data() == ptr) ==>
                exists i :: 0 <= i < |old(chunks)| && old(chunks)[i].Data() == ptr
                            && Relisted(old(freeList), old(chunks), i, freeList)
      ensures Tight(old(chunks), init + HDR, old(brk)) ==>
                (exists c :: c in old(chunks) && !c.free && c.Data() == ptr) ==>
                  (Tight(chunks, init + HDR, brk) <==> honoured || !(releaseUnused && EndsFree(old(chunks), ptr)))
    {
      hide Sound, Ordered, Tight;
      if ptr == 0 {
        OutOfHeap(chunks, freeList, avail, init + HDR, brk, ptr);
        return;
      }
      var i := Tracked(ptr);
      if i == -1 {
        return;
      }
      LastIs(chunks, freeList, avail, init + HDR, brk, i);
      if chunks[i].free {
        return;
      }
      Release(i, honoured);
    }

    /** The copy loop of krealloc. */
    method CopyBytes(dst: int, src: int, len: nat)
      requires Total(mem)
      modifies this`mem
      ensures mem == Copied(old(mem), dst, src, len) && Total(mem)
    {
      var i := 0;
      while i < len
        invariant 0 <= i <= len && mem == Copied(old(mem), dst, src, i) && Total(mem)
      {
        mem := mem[dst + i := mem[src + i]];
        i := i + 1;
      }
    }

    /** krealloc with the new chunk at hand, large enough for the copy: copy, then free what is at `ptr`. */
    method Transfer(ptr: int, res: int, n: nat, ghost k: Chunk, ghost c: Chunk, honoured: bool)
      requires Valid() && k in chunks && c in LiveOf(chunks)
      requires k.Data() == ptr && c.Data() == res && n <= k.size && n <= c.size
      modifies this`chunks, this`freeList, this`avail, this`last, this`brk, this`mem
      ensures Valid() && (c in LiveOf(chunks) <==> k != c) && (k != c ==> c.End() <= brk)
      ensures forall d | d in LiveOf(chunks) && d != c :: d.End() <= c.addr || c.End() <= d.addr
      ensures LiveOf(chunks) == set d | d in LiveOf(old(chunks)) && d.Data() != ptr
      ensures forall a | res <= a < res + n :: mem[a] == old(mem)[ptr + (a - res)]
      ensures forall a | !(c.addr <= a < c.End()) :: mem[a] == old(mem)[a]
      ensures Tight(old(chunks), init + HDR, old(brk)) ==>
                (Tight(chunks, init + HDR, brk) <==> honoured || !(releaseUnused && Frees(old(chunks), ptr)))
    {
      hide Sound, Ordered, Tight, Merged, Copied, EndsFree;
      Apart(chunks, freeList, avail, init + HDR, brk, c);
      KeptApart(chunks, freeList, avail, init + HDR, brk, k, c);
      if k != c {
        CopiedApart(mem, res, ptr, n);
      } else {
        CopiedSelf(mem, res, n);
      }
      CopyBytes(res, ptr, n);
      Kfree(ptr, honoured);
      if k != c {
        LivePlace(chunks, freeList, avail, init + HDR, brk, c);
      }
    }

    /**
     krealloc of NULL, of the data of a chunk or of a pointer to no chunk: NULL leaves everything in place, otherwise
     the block moves with its contents. The data of a chunk that was freed before is not refused: if that chunk is
     the one found, it is freed again and the caller gets a pointer to a free chunk, which is the case exactly if
     `res == ptr`. `wild` tells that the copy leaves the new block, or that this has no room for its header; kfree
     then works on overwritten headers, and the model stops there. `mid` is the chain between kmalloc and kfree.
     */
    method Krealloc(ptr: int, size: nat, answer: Answer, honoured: bool)
      returns (res: int, wild: bool, ghost c: Chunk, ghost mid: seq<Chunk>)
      requires Valid() && size < LIMIT && (answer.Granted? ==> answer.extra % 8 == 0)
      modifies this
      ensures (!wild ==> Valid()) && (size <= MAX_SIZE ==> !wild)
      ensures wild <==> res != 0 && (Headless(old(chunks), old(brk), Len32(size), answer)
                                     || Overflows(old(chunks), ptr, res, c, size))
      ensures forall o | wild && o in old(chunks) && o.Data() == ptr :: mem == Copied(old(mem), res, ptr, o.size)
      ensures res == 0 ==> unchanged(this`chunks, this`freeList, this`avail, this`last, this`brk, this`mem)
      ensures res == 0 <==>
                || size == 0 || (ptr != 0 && forall o | o in old(chunks) :: o.Data() != ptr)
                || (!Fits(old(chunks), Len32(size)) && !Grows(old(brk), Request(old(chunks), Len32(size)), answer, top))
      ensures res != 0 ==> res == c.Data() && c !in old(chunks) && (wild ==> c in LiveOf(chunks))
      ensures res != 0 && !wild ==> Moved(old(chunks), chunks, ptr, c) && (c.size >= size <==> size <= MAX_SIZE)
      ensures res != 0 && res == ptr ==> exists o :: o in old(chunks) && o.free && o.Data() == ptr
      ensures res != 0 && !wild ==> Arrived(old(chunks), ptr, res, size, old(mem), mem)
      ensures !wild ==> Untouched(old(chunks), old(mem), mem)
      ensures res != 0 ==> LiveOf(mid) == LiveOf(old(chunks)) + {c}
      ensures res != 0 && Fits(old(chunks), Len32(size)) ==> HasAddr(old(chunks), c.addr)
      ensures res != 0 && !Fits(old(chunks), Len32(size)) && !LastFree(old(chunks)) ==>
                c == FreshAt(old(brk), Len32(size), answer)
      ensures wild ==> chunks == mid
      ensures !wild && Tight(old(chunks), init + HDR, old(brk)) ==>
                (Tight(chunks, init + HDR, brk) <==> res == 0 || honoured || !(releaseUnused && Frees(mid, ptr)))
    {
      hide Sound, Ordered, Tight, Merged, Len32, Copied, EndsFree, Fits, FirstFit, LastFree, Grows, Request, Headless;
      hide FreshAt, Frees, Moved, LiveOf;
      wild, mid := false, chunks;
      if ptr == 0 {
        OutOfHeap(chunks, freeList, avail, init + HDR, brk, ptr);
        res, wild, c := NewBlock(size, answer);
        mid := chunks;
        if res != 0 && !wild {
          OutOfHeap(chunks, freeList, avail, init + HDR, brk, ptr);
          NothingAt(chunks, ptr);
        }
        return;
      }
      res, c := 0, Chunk(0, 0, false);
      var i := Tracked(ptr);
      if i != -1 {
        res, wild, c, mid := MoveBlock(i, size, answer, honoured);
      }
    }

    /** krealloc of the chunk `i`. */
    method MoveBlock(i: int, size: nat, answer: Answer, honoured: bool)
      returns (res: int, wild: bool, ghost c: Chunk, ghost mid: seq<Chunk>)
      requires Valid() && size < LIMIT && (answer.Granted? ==> answer.extra % 8 == 0) && 0 <= i < |chunks|
      modifies this
      ensures var o, ptr := old(chunks)[i], old(chunks)[i].Data();
              && (!wild ==> Valid()) && (size <= MAX_SIZE ==> !wild)
              && (wild <==> res != 0 && (Headless(old(chunks), old(brk), Len32(size), answer)
                                         || (res != ptr && c.size < o.size && c.size < size)))
              && (wild ==> mem == Copied(old(mem), res, ptr, o.size) && c in LiveOf(chunks) && chunks == mid)
              && (res == 0 ==> !wild)
              && (res == 0 ==> unchanged(this`chunks, this`freeList, this`avail, this`last, this`brk, this`mem))
              && (res != 0 ==> res == c.Data() && c !in old(chunks) && LiveOf(mid) == LiveOf(old(chunks)) + {c})
              && (res != 0 && !wild ==> Moved(old(chunks), chunks, ptr, c))
              && (res == ptr && res != 0 ==> o.free)
              && (res != 0 && !wild ==> (c.size >= size <==> size <= MAX_SIZE))
              && (res != 0 && !wild ==> Arrived(old(chunks), ptr, res, size, old(mem), mem))
              && (res != 0 && !wild ==> Untouched(old(chunks), old(mem), mem))
              && (res != 0 && Fits(old(chunks), Len32(size)) ==> HasAddr(old(chunks), c.addr))
              && (res != 0 && !Fits(old(chunks), Len32(size)) && !LastFree(old(chunks)) ==>
                    c == FreshAt(old(brk), Len32(size), answer))
              && (!wild && Tight(old(chunks), init + HDR, old(brk)) ==>
                    (Tight(chunks, init + HDR, brk) <==> res == 0 || honoured || !(releaseUnused && Frees(mid, ptr))))
      ensures res == 0 <==>
                || size == 0
                || (!Fits(old(chunks), Len32(size)) && !Grows(old(brk), Request(old(chunks), Len32(size)), answer, top))
    {
      hide Sound, Ordered, Tight, Merged, Len32, Copied, EndsFree, Fits, FirstFit, LastFree, Grows, Request, Headless;
      hide FreshAt, Frees, Arrived, Untouched, Moved, LiveOf, Total;
      wild := false;
      ghost var o := chunks[i];
      var ptr := chunks[i].Data();
      OneAt(chunks, freeList, avail, init + HDR, brk, i);
      ChunkAligned(chunks, freeList, avail, init + HDR, brk, i);
      BelowBreak(chunks, freeList, avail, init + HDR, brk);
      res, c := Kmalloc(size, answer);
      mid := chunks;
      if res != 0 {
        ghost var ok, was := Valid(), old(chunks);
        LiveIs(was, o, c);
        if ok {
          Apart(chunks, freeList, avail, init + HDR, brk, c);
        }
        assert ok ==> forall d | d in LiveOf(was) :: d.End() <= c.addr || c.End() <= d.addr;
        wild := Carry(ptr, res, size, o, c, honoured);
        if !wild {
          MovedOn(was, mid, chunks, ptr, c);
          ArrivedOnly(was, o, res, size, old(mem), mem);
          UntouchedApart(was, c, old(mem), mem);
        }
      }
    }

    /** krealloc of NULL. */
    method NewBlock(size: nat, answer: Answer) returns (res: int, wild: bool, ghost c: Chunk)
      requires Valid() && size < LIMIT && (answer.Granted? ==> answer.extra % 8 == 0)
      modifies this`chunks, this`freeList, this`avail, this`last, this`brk, this`allocFail
      ensures (!wild <==> Valid()) && (size <= MAX_SIZE ==> !wild)
      ensures wild <==> res != 0 && Headless(old(chunks), old(brk), Len32(size), answer)
      ensures res == 0 ==> unchanged(this`chunks, this`freeList, this`avail, this`last, this`brk)
      ensures res == 0 <==>
                || size == 0
                || (!Fits(old(chunks), Len32(size)) && !Grows(old(brk), Request(old(chunks), Len32(size)), answer, top))
      ensures res != 0 ==> res == c.Data() && LiveOf(chunks) == LiveOf(old(chunks)) + {c} && c !in old(chunks)
      ensures res != 0 && !wild ==> (c.size >= size <==> size <= MAX_SIZE)
      ensures res != 0 && !wild ==> Moved(old(chunks), chunks, 0, c)
      ensures res != 0 && Fits(old(chunks), Len32(size)) ==> HasAddr(old(chunks), c.addr)
      ensures res != 0 && !Fits(old(chunks), Len32(size)) && !LastFree(old(chunks)) ==>
                c == FreshAt(old(brk), Len32(size), answer)
      ensures !wild && Tight(old(chunks), init + HDR, old(brk)) ==> Tight(chunks, init + HDR, brk)
    {
      hide Sound, Ordered, Tight, Merged, Len32, Fits, FirstFit, LastFree, Grows, Request, Headless, FreshAt, LiveOf;
      wild := false;
      ghost var was := chunks;
      OutOfHeap(chunks, freeList, avail, init + HDR, brk, 0);
      res, c := Kmalloc(size, answer);
      if res != 0 {
        wild := Overrun();
        if !wild {
          Apart(chunks, freeList, avail, init + HDR, brk, c);
          OutOfHeap(chunks, freeList, avail, init + HDR, brk, 0);
          NewlyMoved(was, chunks, c);
        }
      }
    }

    /** krealloc with both blocks at hand; `o` is what was at `ptr` before. */
    method Carry(ptr: int, res: int, size: nat, ghost o: Chunk, ghost c: Chunk, honoured: bool) returns (wild: bool)
      requires Total(mem) && c in LiveOf(chunks) && o.Data() == ptr && c.Data() == res && o.size >= 0
      requires if o.addr == c.addr then o != c else o in chunks
      requires Valid() || (o.addr != c.addr && chunks[|chunks| - 1] == c && c.End() > brk && Once(chunks, ptr))
      modifies this`chunks, this`freeList, this`avail, this`last, this`brk, this`mem
      ensures wild <==> !old(Valid()) || (res != ptr && c.size < o.size && c.size < size)
      ensures wild ==> mem == Copied(old(mem), res, ptr, if o.size > size then size else o.size)
      ensures wild ==> unchanged(this`chunks, this`brk)
      ensures !wild ==> Valid() && (c in LiveOf(chunks) <==> res != ptr) && (res != ptr ==> c.End() <= brk)
      ensures !wild ==> forall d | d in LiveOf(chunks) && d != c :: d.End() <= c.addr || c.End() <= d.addr
      ensures !wild ==> LiveOf(chunks) == set d | d in LiveOf(old(chunks)) && d.Data() != ptr
      ensures !wild ==>
                forall a | res <= a < res + o.size && a < res + size :: mem[a] == old(mem)[ptr + (a - res)]
      ensures !wild ==> forall a | !(c.addr <= a < c.End()) :: mem[a] == old(mem)[a]
      ensures !wild && Tight(old(chunks), init + HDR, old(brk)) ==>
                (Tight(chunks, init + HDR, brk) <==> honoured || !(releaseUnused && Frees(old(chunks), ptr)))
    {
      hide Sound, Ordered, Tight, Merged, Copied, EndsFree;
      var i := HeaderOf(ptr);
      ghost var k := chunks[i];
      if Valid() {
        OneAt(chunks, freeList, avail, init + HDR, brk, i);
        ChunkAligned(chunks, freeList, avail, init + HDR, brk, i);
      }
      var n := if chunks[i].size > size then size else chunks[i].size;
      wild := Overrun();
      if !wild {
        var at := HeaderOf(res);
        OneAt(chunks, freeList, avail, init + HDR, brk, at);
        wild := chunks[at].size < n;
      }
      if wild {
        CopyBytes(res, ptr, n);
      } else {
        Transfer(ptr, res, n, k, c, honoured);
      }
    }

    /** Does the last chunk reach beyond the break? */
    method Overrun() returns (b: bool)
      ensures b <==> chunks != [] && chunks[|chunks| - 1].End() > brk
      ensures Valid() ==> !b
    {
      if Valid() && chunks != [] {
        LastRoom(chunks, freeList, avail, init + HDR, brk);
      }
      return chunks != [] && chunks[|chunks| - 1].End() > brk;
    }
  }

  lemma EmptyChain(lo: int, hi: int)
    requires lo <= hi
    ensures Consistent([], [], 0, lo, hi) && (Tight([], lo, hi) <==> lo == hi)
  {}

  /** The free list without the chunk `j`, if there is one and it is free. */
  function Unlisted(l: seq<int>, cs: seq<Chunk>, j: int): seq<int> {
    if 0 <= j < |cs| && cs[j].free then Without(l, cs[j].addr) else l
  }

  lemma UnlistedSame(l: seq<int>, cs: seq<Chunk>, cs': seq<Chunk>, j: int)
    requires 0 <= j < |cs| <==> 0 <= j < |cs'|
    requires 0 <= j < |cs| ==> cs[j] == cs'[j]
    ensures Unlisted(l, cs, j) == Unlisted(l, cs', j)
  {}

  /** What kfree of the chunk `i` makes of the list: its free neighbours are off it, and the merged chunk comes last. */
  ghost predicate Relisted(l: seq<int>, cs: seq<Chunk>, i: int, l': seq<int>)
    requires 0 <= i < |cs|
  {
    l' == Unlisted(Unlisted(l, cs, i + 1), cs, i - 1)
          + [if i > 0 && cs[i - 1].free then cs[i - 1].addr else cs[i].addr]
  }

  /** kfree of `ptr` frees a chunk and leaves a free one at the end. */
  ghost predicate Frees(cs: seq<Chunk>, ptr: int) {
    EndsFree(cs, ptr) && exists d :: d in cs && !d.free && d.Data() == ptr
  }

  lemma NothingAt(cs: seq<Chunk>, ptr: int)
    requires forall c | c in cs :: c.Data() != ptr
    ensures !Frees(cs, ptr)
  {}

  /** The chunk at `ptr` does not fit into the new one, which is another. */
  ghost predicate Overflows(cs: seq<Chunk>, ptr: int, res: int, c: Chunk, size: int) {
    res != ptr && exists o :: o in cs && o.Data() == ptr && c.size < o.size && c.size < size
  }

  /** The block `c` comes and what was at `ptr` goes; `c` itself went again if that is where it is. */
  ghost predicate Moved(cs: seq<Chunk>, cs': seq<Chunk>, ptr: int, c: Chunk) {
    && (c in LiveOf(cs') <==> c.Data() != ptr)
    && LiveOf(cs') - {c} == (set d | d in LiveOf(cs) && d.Data() != ptr)
    && forall d | d in LiveOf(cs') && d != c :: d.End() <= c.addr || c.End() <= d.addr
  }

  /** The contents of the chunk at `ptr` are at `res`, as far as they were asked for. */
  ghost predicate Arrived(cs: seq<Chunk>, ptr: int, res: int, size: int, mem: imap<int, int>, mem': imap<int, int>)
    requires Total(mem) && Total(mem')
  {
    forall o, a | o in cs && o.Data() == ptr && res <= a < res + o.size && a < res + size ::
      mem'[a] == mem[ptr + (a - res)]
  }

  /** The bytes of all blocks in use stay. */
  ghost predicate Untouched(cs: seq<Chunk>, mem: imap<int, int>, mem': imap<int, int>)
    requires Total(mem) && Total(mem')
  {
    forall d, a | d in LiveOf(cs) && d.addr <= a < d.End() :: mem'[a] == mem[a]
  }

  lemma ArrivedOnly(cs: seq<Chunk>, o: Chunk, res: int, size: int, mem: imap<int, int>, mem': imap<int, int>)
    requires Total(mem) && Total(mem') && forall d | d in cs && d.Data() == o.Data() :: d == o
    requires forall a | res <= a < res + o.size && a < res + size :: mem'[a] == mem[o.Data() + (a - res)]
    ensures Arrived(cs, o.Data(), res, size, mem, mem')
  {}

  lemma UntouchedApart(cs: seq<Chunk>, c: Chunk, mem: imap<int, int>, mem': imap<int, int>)
    requires Total(mem) && Total(mem') && forall d | d in LiveOf(cs) :: d.End() <= c.addr || c.End() <= d.addr
    requires forall a | !(c.addr <= a < c.End()) :: mem'[a] == mem[a]
    ensures Untouched(cs, mem, mem')
  {}

  lemma NewlyMoved(cs: seq<Chunk>, cs': seq<Chunk>, c: Chunk)
    requires LiveOf(cs') == LiveOf(cs) + {c} && c !in cs && forall d | d in cs' :: d.Data() != 0
    requires forall d | d in LiveOf(cs') && d != c :: d.End() <= c.addr || c.End() <= d.addr
    ensures Moved(cs, cs', 0, c)
  {}

  lemma MovedOn(cs: seq<Chunk>, mid: seq<Chunk>, cs': seq<Chunk>, ptr: int, c: Chunk)
    requires LiveOf(mid) == LiveOf(cs) + {c} && c !in cs && (c in LiveOf(cs') <==> c.Data() != ptr)
    requires LiveOf(cs') == set d | d in LiveOf(mid) && d.Data() != ptr
    requires forall d | d in LiveOf(cs') && d != c :: d.End() <= c.addr || c.End() <= d.addr
    ensures Moved(cs, cs', ptr, c)
  {}

  /** One chunk at most has its data there. */
  ghost predicate Once(cs: seq<Chunk>, ptr: int) {
    forall d, e | d in cs && e in cs && d.Data() == ptr == e.Data() :: d == e
  }

  lemma KeptApart(cs: seq<Chunk>, l: seq<int>, avail: int, lo: int, hi: int, k: Chunk, c: Chunk)
    requires Sound(cs, l, avail, lo, hi) && k in cs && c in cs
    ensures k != c ==> k.End() <= c.addr || c.End() <= k.addr
    ensures k.size >= 0 && c.size >= 0
    ensures forall d | d in cs && d.Data() == k.Data() :: d == k
  {
    var i :| 0 <= i < |cs| && cs[i] == k;
    var j :| 0 <= j < |cs| && cs[j] == c;
    ChunkAligned(cs, l, avail, lo, hi, i);
    ChunkAligned(cs, l, avail, lo, hi, j);
    OneAt(cs, l, avail, lo, hi, i);
    if k != c {
      LiveApart(cs, lo, hi, k, c);
    }
  }

  lemma {:induction false} CopiedSelf(m: imap<int, int>, dst: int, n: nat)
    requires Total(m)
    ensures Copied(m, dst, dst, n) == m
  {
    if n > 0 {
      CopiedSelf(m, dst, n - 1);
    }
  }

  /** What copying byte by byte, ascending, does to the memory. */
  ghost function Copied(m: imap<int, int>, dst: int, src: int, n: nat): (r: imap<int, int>)
    requires Total(m)
    ensures Total(r)
  {
    if n == 0 then m else
      var p := Copied(m, dst, src, n - 1);
      p[dst + (n - 1) := p[src + (n - 1)]]
  }

  /** Between areas that do not overlap the bytes arrive, and all others stay. */
  lemma {:induction false} CopiedApart(m: imap<int, int>, dst: int, src: int, n: nat)
    requires Total(m) && (dst + n <= src || src + n <= dst)
    ensures forall a | dst <= a < dst + n :: Copied(m, dst, src, n)[a] == m[src + (a - dst)]
    ensures forall a | !(dst <= a < dst + n) :: Copied(m, dst, src, n)[a] == m[a]
  {
    if n > 0 {
      CopiedApart(m, dst, src, n - 1);
    }
  }

  /** All chunks but the one at the address of `c` are still there. */
  ghost predicate OthersStay(cs: seq<Chunk>, cs': seq<Chunk>, c: Chunk) {
    forall d | d in cs && d.addr != c.addr :: d in cs'
  }

  lemma OthersReplaced(cs: seq<Chunk>, i: nat, mid: seq<Chunk>, c: Chunk)
    requires i < |cs| && cs[i].addr == c.addr
    ensures OthersStay(cs, Replace(cs, i, i + 1, mid), c)
  {
    assert cs == cs[..i] + [cs[i]] + cs[i + 1..];
  }

  /** The chunk `i` is on the list behind smaller ones only. */
  ghost predicate FirstFit(cs: seq<Chunk>, l: seq<int>, i: int, size: int)
    requires 0 <= i < |cs|
  {
    exists n :: 0 <= n < |l| && l[n] == cs[i].addr && forall c | c in cs && c.free && c.addr in l[..n] :: c.size < size
  }

  /** Some free chunk of the chain holds `len` bytes. */
  ghost predicate Fits(cs: seq<Chunk>, len: int) { exists c :: c in cs && c.free && c.size >= len }

  /** Splitting a free chunk, the lower part put to use, leaves the chain merged and without gaps. */
  lemma SplitChain(cs: seq<Chunk>, lo: int, hi: int, i: nat, len: int)
    requires Merged(cs) && i < |cs| && cs[i].free
    ensures var r := Replace(cs, i, i + 1, [Chunk(cs[i].addr, len, false), Upper(cs[i], len)]);
            Merged(r) && (Tight(cs, lo, hi) ==> Tight(r, lo, hi))
  {
    var r := Replace(cs, i, i + 1, [Chunk(cs[i].addr, len, false), Upper(cs[i], len)]);
    assert forall k | i + 2 <= k < |r| :: r[k] == cs[k - 1];
    assert forall k | 0 <= k < i :: r[k] == cs[k];
  }

  /** Marking the lower part commutes with splitting. */
  lemma SplitView(cs: seq<Chunk>, i: nat, len: int)
    requires i < |cs|
    ensures var r := View(Replace(cs, i, i + 1, Halves(cs[i], len)), i);
            r == Replace(View(cs, i), i, i + 1, Halves(View(cs, i)[i], len))
            && r == Replace(cs, i, i + 1, [Chunk(cs[i].addr, len, false), Upper(cs[i], len)])
  {}

  lemma ViewChain(cs: seq<Chunk>, lo: int, hi: int, i: nat)
    requires i < |cs|
    ensures Tight(cs, lo, hi) ==> Tight(View(cs, i), lo, hi)
    ensures Merged(cs) ==> Merged(View(cs, i))
  {}

  lemma NewlyLive(cs: seq<Chunk>, lo: int, hi: int, i: nat, c: Chunk)
    requires Ordered(cs, lo, hi) && i < |cs| && cs[i].free && !c.free && c.addr == cs[i].addr
    ensures c !in cs
  {
    OnlyOne(cs, lo, hi, i);
  }

  lemma OrderOf(cs: seq<Chunk>, l: seq<int>, avail: int, lo: int, hi: int)
    requires Sound(cs, l, avail, lo, hi)
    ensures Ordered(cs, lo, hi)
  {}

  lemma LastRoom(cs: seq<Chunk>, l: seq<int>, avail: int, lo: int, hi: int)
    requires Sound(cs, l, avail, lo, hi) && cs != []
    ensures cs[|cs| - 1].End() <= hi && cs[|cs| - 1].size % 8 == 0 && cs[|cs| - 1].size >= 0
  {
    ChunkAligned(cs, l, avail, lo, hi, |cs| - 1);
  }

  lemma BelowBreak(cs: seq<Chunk>, l: seq<int>, avail: int, lo: int, hi: int)
    requires Sound(cs, l, avail, lo, hi)
    ensures lo <= hi && forall c | c in cs :: c.addr < hi
  {
    forall c | c in cs ensures c.addr < hi {
      var i :| 0 <= i < |cs| && cs[i] == c;
      ChunkAligned(cs, l, avail, lo, hi, i);
    }
  }

  lemma GrowTight(cs: seq<Chunk>, c: Chunk, lo: int, hi: int, hi': int)
    requires cs != [] && c.addr == cs[|cs| - 1].addr && c.End() == hi'
    ensures Tight(cs, lo, hi) ==> Tight(cs[|cs| - 1 := c], lo, hi')
  {}

  /** The free last chunk, grown and put to use. */
  lemma {:induction false} Expanded(cs: seq<Chunk>, c: Chunk, lo: int, hi: int, hi': int)
    requires Ordered(cs, lo, hi) && cs != [] && cs[|cs| - 1].free && !c.free
    requires c.addr == cs[|cs| - 1].addr && c.End() == hi'
    ensures var cs' := cs[|cs| - 1 := c];
            && LiveOf(cs') == LiveOf(cs) + {c} && c !in cs && OthersStay(cs, cs', c)
            && (Tight(cs, lo, hi) ==> Tight(cs', lo, hi'))
  {
    hide LiveOf, Ordered, OthersStay, Tight;
    var n := |cs| - 1;
    ReplaceOne(cs, n, c);
    LiveGain(cs, n, [c], c);
    OthersReplaced(cs, n, [c], c);
    NewlyLive(cs, lo, hi, n, c);
    GrowTight(cs, c, lo, hi, hi');
  }

  lemma AppendTight(cs: seq<Chunk>, lo: int, hi: int, hi': int)
    ensures Tight(cs, lo, hi) ==> Tight(cs + [Chunk(hi, hi' - hi - HDR, false)], lo, hi')
  {}

  lemma LiveAppend(cs: seq<Chunk>, c: Chunk)
    requires !c.free
    ensures LiveOf(cs + [c]) == LiveOf(cs) + {c}
  {}

  lemma LivePlace(cs: seq<Chunk>, l: seq<int>, avail: int, lo: int, hi: int, c: Chunk)
    requires Sound(cs, l, avail, lo, hi) && c in LiveOf(cs)
    ensures c.Data() % 8 == 0 && c.addr >= lo && c.End() <= hi
  {
    var i :| 0 <= i < |cs| && cs[i] == c;
    ChunkAligned(cs, l, avail, lo, hi, i);
  }

  /** A chain with a chunk beyond the break is not in order. */
  lemma Overruns(cs: seq<Chunk>, l: seq<int>, avail: int, lo: int, hi: int, c: Chunk)
    requires c in cs && c.End() > hi
    ensures !Sound(cs, l, avail, lo, hi)
  {
    var i :| 0 <= i < |cs| && cs[i] == c;
    assert !Fitting(cs[i], lo, hi);
  }

  /** Free chunks replaced by a free chunk: the ones in use stay. */
  lemma LiveSame(cs: seq<Chunk>, i: nat, j: nat, mid: seq<Chunk>)
    requires i <= j <= |cs| && (forall k | i <= k < j :: cs[k].free) && (forall k | 0 <= k < |mid| :: mid[k].free)
    ensures LiveOf(Replace(cs, i, j, mid)) == LiveOf(cs)
  {
    LiveReplace(cs, i, j, mid);
  }

  lemma LiveDrop(cs: seq<Chunk>, l: seq<int>, avail: int, lo: int, hi: int, i: nat)
    requires Sound(cs, l, avail, lo, hi) && i < |cs| && !cs[i].free
    ensures LiveOf(cs[i := cs[i].(free := true)]) == LiveOf(cs) - {cs[i]}
  {
    ReplaceOne(cs, i, cs[i].(free := true));
    LiveLoss(cs, lo, hi, i, i + 1, i, cs[i].(free := true));
  }

  lemma FlagTight(cs: seq<Chunk>, i: nat, lo: int, hi: int)
    requires i < |cs|
    ensures Tight(cs, lo, hi) ==> Tight(cs[i := cs[i].(free := true)], lo, hi)
    ensures LastFree(cs[i := cs[i].(free := true)]) <==> LastFree(cs) || i + 1 == |cs|
  {}

  /** Two neighbours as kmem_merge leaves them. */
  function Swallow(c: Chunk, d: Chunk): Chunk { c.(size := c.size + d.size + HDR) }

  /** The chunk at `t + 1`, under way, merged into the free one before it. */
  lemma JoinedPrev(cs: seq<Chunk>, t: nat, init: int)
    requires t + 1 < |cs| && cs[t].free && Merged(View(cs, t + 1))
    ensures var r := Replace(cs, t, t + 2, [Swallow(cs[t], cs[t + 1])]); var v := View(cs, t + 1);
            && |r| == |cs| - 1 && r[t].free && View(r, t) == Replace(v, t, t + 2, [Joined(v[t], v[t + 1])])
            && (t > 0 ==> !r[t - 1].free)
            && (t + 1 < |r| ==> r[t + 1] == cs[t + 2] && LastAddr(init, r) == LastAddr(init, cs))
            && (cs[t + 1].free ==> (LastFree(r) <==> LastFree(cs)))
  {
    var v := View(cs, t + 1);
    assert v[..t] == cs[..t] && v[t + 2..] == cs[t + 2..];
    if t > 0 { assert v[t - 1] == cs[t - 1]; }
  }

  /** The chunk at `i`, under way, merged with the free one behind it. */
  lemma JoinedNext(cs: seq<Chunk>, i: nat, init: int)
    requires i + 1 < |cs| && cs[i].free && cs[i + 1].free && Merged(View(cs, i))
    ensures var r := Replace(cs, i, i + 2, [Swallow(cs[i], cs[i + 1])]); var v := View(cs, i);
            && |r| == |cs| - 1 && r[i].free && View(r, i) == Replace(v, i, i + 2, [Joined(v[i], v[i + 1])])
            && (i + 1 < |r| ==> !r[i + 1].free && LastAddr(init, r) == LastAddr(init, cs))
            && (LastFree(r) <==> LastFree(cs))
  {
    if i + 2 < |cs| { assert View(cs, i)[i + 2] == cs[i + 2]; }
  }

  lemma MergeTight(cs: seq<Chunk>, k: nat, lo: int, hi: int)
    requires k + 1 < |cs|
    ensures var r := Replace(cs, k, k + 2, [Swallow(cs[k], cs[k + 1])]);
            Tight(cs, lo, hi) ==> Tight(r, lo, hi)
  {
    var r := Replace(cs, k, k + 2, [Swallow(cs[k], cs[k + 1])]);
    assert forall n | k < n < |r| :: r[n] == cs[n + 1];
    assert forall n | 0 <= n < k :: r[n] == cs[n];
  }

  lemma {:induction false} WithoutAppend(l: seq<int>, a: int, x: int)
    requires a in l
    ensures Without(l + [x], a) == Without(l, a) + [x]
  {
    if l[0] == a {
      assert (l + [x])[1..] == l[1..] + [x];
    } else {
      WithoutAppend(l[1..], a, x);
      assert (l + [x])[1..] == l[1..] + [x];
    }
  }

  /** The split of a listed last chunk, both parts listed again. */
  lemma LazyStep(cs: seq<Chunk>, l: seq<int>, avail: int, lo: int, hi: int, len: int)
    requires Consistent(cs, l, avail, lo, hi) && cs != [] && cs[|cs| - 1].free
    requires 0 <= len && len % 8 == 0 && len + HDR <= cs[|cs| - 1].size
    ensures var k := cs[|cs| - 1]; var u := Upper(k, len);
            Sound(cs[..|cs| - 1] + Halves(k, len), Without(l + [u.addr], k.addr) + [k.addr],
                  avail + u.size - k.size + len, lo, hi)
  {
    hide Sound;
    var n := |cs| - 1;
    var k := cs[n];
    var u := Upper(k, len);
    var v := View(cs, n);
    TakeStep(cs, l, avail, lo, hi, n);
    var l1 := Without(l, k.addr);
    SplitStep(v, l1, avail - k.size, lo, hi, n, len);
    var s := Replace(v, n, n + 1, Halves(v[n], len));
    GiveSound(s, l1 + [u.addr], avail - k.size + u.size, lo, hi, n);
    assert s[n := s[n].(free := true)] == cs[..n] + Halves(k, len);
    OnList(cs, l, avail, lo, hi, n);
    WithoutAppend(l, k.addr, u.addr);
  }

  lemma OnList(cs: seq<Chunk>, l: seq<int>, avail: int, lo: int, hi: int, i: nat)
    requires Sound(cs, l, avail, lo, hi) && i < |cs| && cs[i].free
    ensures cs[i].addr in l
  {
    AddrOnList(cs, l, lo, hi, i);
  }

  /** The last chunk, or the upper part of it, taken away. */
  lemma {:induction false} DropChain(was: seq<Chunk>, cs: seq<Chunk>, lo: int, hi: int, len: int)
    requires was != [] && was[|was| - 1].free && cs != [] && cs[|cs| - 1].size >= 0
    requires cs == was || cs == was[..|was| - 1] + Halves(was[|was| - 1], len)
    requires Merged(was)
    ensures LiveOf(cs[..|cs| - 1]) == LiveOf(was) && Merged(cs[..|cs| - 1])
    ensures Tight(was, lo, hi) ==> Tight(cs[..|cs| - 1], lo, hi - cs[|cs| - 1].size - HDR)
    ensures Tight(was, lo, hi) ==> !Tight(cs[..|cs| - 1], lo, hi)
  {
    hide LiveOf, Merged, Tight;
    var p, f := was[..|was| - 1], was[|was| - 1];
    var g := Chunk(f.addr, len, true);
    assert was == p + [f];
    LiveBefore(p, f);
    MergedBefore(p, f, g);
    if cs == was {
      TightBefore(p, f, lo, hi);
    } else {
      assert cs[..|cs| - 1] == p + [g];
      LiveBefore(p, g);
      TightHalf(p, f, g, lo, hi);
    }
  }

  lemma DropKeeps(cs: seq<Chunk>, l: seq<int>, avail: int, lo: int, hi: int, k: Chunk, end: int)
    requires Sound(cs, l, avail, lo, hi) && cs != [] && cs[|cs| - 1] == k && k.free && Merged(cs[..|cs| - 1])
    requires hi % 8 == 0 && (end == hi || end == hi - (k.size + HDR))
    ensures Consistent(cs[..|cs| - 1], Without(l, k.addr), avail - k.size, lo, end) && end % 8 == 0 && end <= hi
  {
    hide Sound, Merged, Without;
    LastRoom(cs, l, avail, lo, hi);
    ChunkAligned(cs, l, avail, lo, hi, |cs| - 1);
    DropStep(cs, l, avail, lo, hi, end);
  }

  lemma LastUsed(cs: seq<Chunk>)
    requires Merged(cs) && cs != []
    ensures LastFree(cs) ==> !LastFree(cs[..|cs| - 1])
  {
    var n := |cs| - 1;
    assert n > 0 ==> !(cs[n - 1].free && cs[n].free);
  }

  lemma LiveBefore(p: seq<Chunk>, f: Chunk)
    requires f.free
    ensures LiveOf(p + [f]) == LiveOf(p)
  {}

  lemma MergedBefore(p: seq<Chunk>, f: Chunk, g: Chunk)
    requires f.free && g.free && Merged(p + [f])
    ensures Merged(p) && Merged(p + [g])
  {
    var was, cs := p + [f], p + [g];
    assert forall i | 0 <= i < |was| :: cs[i].free == was[i].free && (i < |p| ==> p[i] == was[i]);
    forall i | 0 <= i < |cs| - 1 ensures !(cs[i].free && cs[i + 1].free) {
      assert !(was[i].free && was[i + 1].free);
    }
    forall i | 0 <= i < |p| - 1 ensures !(p[i].free && p[i + 1].free) {
      assert !(was[i].free && was[i + 1].free);
    }
  }

  lemma TightBefore(p: seq<Chunk>, f: Chunk, lo: int, hi: int)
    requires f.size >= 0
    ensures Tight(p + [f], lo, hi) ==> Tight(p, lo, hi - f.size - HDR) && !Tight(p, lo, hi)
  {
    var was := p + [f];
    assert forall i | 0 <= i < |p| :: was[i] == p[i];
    assert was[|p|] == f;
  }

  lemma TightHalf(p: seq<Chunk>, f: Chunk, g: Chunk, lo: int, hi: int)
    requires g.addr == f.addr
    ensures Tight(p + [f], lo, hi) ==> Tight(p + [g], lo, hi - f.size + g.size)
    ensures Tight(p + [f], lo, hi) && g.size < f.size ==> !Tight(p + [g], lo, hi)
  {
    var was, cs := p + [f], p + [g];
    assert forall i | 0 <= i < |p| :: was[i] == p[i] == cs[i];
    assert was[|p|] == f && cs[|p|] == g;
  }

  lemma OutOfHeap(cs: seq<Chunk>, l: seq<int>, avail: int, lo: int, hi: int, ptr: int)
    requires Sound(cs, l, avail, lo, hi) && (ptr < lo || ptr > hi)
    ensures forall c | c in cs :: c.Data() != ptr
  {
    forall c | c in cs ensures c.Data() != ptr {
      var i :| 0 <= i < |cs| && cs[i] == c;
      ChunkAligned(cs, l, avail, lo, hi, i);
    }
  }

  lemma OneAt(cs: seq<Chunk>, l: seq<int>, avail: int, lo: int, hi: int, i: nat)
    requires Sound(cs, l, avail, lo, hi) && i < |cs|
    ensures forall c | c in cs && c.Data() == cs[i].Data() :: c == cs[i]
  {
    OnlyOne(cs, lo, hi, i);
  }

  lemma LastIs(cs: seq<Chunk>, l: seq<int>, avail: int, lo: int, hi: int, i: nat)
    requires Sound(cs, l, avail, lo, hi) && i < |cs|
    ensures cs[|cs| - 1].Data() == cs[i].Data() <==> i + 1 == |cs|
  {
    AddrOrder(cs, lo, hi, i, |cs| - 1);
  }

  lemma Apart(cs: seq<Chunk>, l: seq<int>, avail: int, lo: int, hi: int, c: Chunk)
    requires Sound(cs, l, avail, lo, hi) && c in LiveOf(cs)
    ensures forall d | d in LiveOf(cs) && d != c :: d.End() <= c.addr || c.End() <= d.addr
    ensures forall d | d in LiveOf(cs) :: d in cs && !d.free && d.size >= 0
  {
    forall d | d in LiveOf(cs)
      ensures d in cs && !d.free && d.size >= 0 && (d != c ==> d.End() <= c.addr || c.End() <= d.addr)
    {
      var i :| 0 <= i < |cs| && cs[i] == d;
      ChunkAligned(cs, l, avail, lo, hi, i);
      if d != c {
        LiveApart(cs, lo, hi, c, d);
      }
    }
  }

  /** A chunk of the chain is the only one with its address. */
  lemma OnlyOne(cs: seq<Chunk>, lo: int, hi: int, i: int)
    requires Ordered(cs, lo, hi) && 0 <= i < |cs|
    ensures forall c | c in cs && c.addr == cs[i].addr :: c == cs[i]
  {
    forall c | c in cs && c.addr == cs[i].addr ensures c == cs[i] {
      var k :| 0 <= k < |cs| && cs[k] == c;
      SameAddr(cs, lo, hi, i, k);
    }
  }

  // ---------------------------------------------------------------- runs that show the limits

  /** kmalloc, kmalloc, kfree with the release refused: the chain no longer reaches up to the break. */
  method GapRun(mem: imap<int, int>) returns (h: Heap)
    requires Total(mem)
    ensures h.Valid() && |LiveOf(h.chunks)| == 1 && !Tight(h.chunks, h.init + HDR, h.brk)
  {
    hide LiveOf, Tight, Len32, Consistent, FirstFit, Headless, Fits, LastFree, EndsFree;
    h := new Heap(0x1000, 0, mem, LIMIT, true, false, 0);
    LenWraps(8);
    ghost var c, d;
    var p, q;
    InUse(h.chunks);
    p, c := h.Kmalloc(8, Granted(0));
    InUse(h.chunks);
    assert h.chunks == [c];
    q, d := h.Kmalloc(8, Granted(0));
    LivePair(c, d);
    h.Kfree(q, false);
  }

  lemma LiveIs(cs: seq<Chunk>, o: Chunk, c: Chunk)
    requires o in cs && c !in cs
    ensures (o in LiveOf(cs) <==> !o.free) && c !in LiveOf(cs)
  {}

  lemma LiveMember(cs: seq<Chunk>, c: Chunk)
    requires c in LiveOf(cs)
    ensures c in cs
  {}

  /** A chain of chunks in use. */
  lemma InUse(cs: seq<Chunk>)
    requires forall c | c in cs :: !c.free
    ensures !LastFree(cs) && (forall len :: !Fits(cs, len)) && (forall c | c in cs :: c in LiveOf(cs))
  {}

  lemma LivePair(c: Chunk, d: Chunk)
    requires !c.free && !d.free && c.addr < d.addr
    ensures EndsFree([c] + [d], d.Data()) && (set x | x in LiveOf([c] + [d]) && x.Data() != d.Data()) == {c}
  {
    var cs := [c] + [d];
    assert c in cs && d in cs;
  }

  /** kmalloc(0xFFFFFFF0) asks for 16 bytes: a block without any room, or one that overruns the break. */
  method WrapRun(mem: imap<int, int>, extra: nat) returns (h: Heap, ptr: int, ghost c: Chunk)
    requires Total(mem) && extra in {0, 16}
    ensures ptr != 0 && ptr == c.Data() && c in h.chunks && !c.free
    ensures if extra == 0 then !h.Valid() && c.End() > h.brk else h.Valid() && c.size == 0
  {
    h := new Heap(0x1000, 0, mem, LIMIT, false, false, 0);
    LenWraps(0xFFFF_FFF0);
    assert Len32(0xFFFF_FFF0) == 16;
    InUse(h.chunks);
    hide Len32, FirstFit, Fits, LastFree;
    ptr, c := h.Kmalloc(0xFFFF_FFF0, Granted(extra));
  }

  /** A heap with one block of 104 bytes. */
  method OneBlock(mem: imap<int, int>) returns (h: Heap, ptr: int, ghost o: Chunk)
    requires Total(mem)
    ensures h.Valid() && fresh(h) && h.chunks == [o] && o == Chunk(0x1020, 104, false) && ptr == o.Data()
    ensures h.init + HDR == o.addr && h.brk == o.End() && h.mem == mem && h.top == LIMIT && !h.releaseUnused
  {
    LenWraps(100);
    assert Len32(100) == 136;
    hide Tight, LiveOf, Len32, Consistent, FirstFit, Headless, Fits, LastFree;
    h := new Heap(0x1000, 0, mem, LIMIT, false, false, 0);
    InUse(h.chunks);
    ptr, o := h.Kmalloc(100, Granted(0));
  }

  /** krealloc of a block of 104 bytes to 0xFFFFFFF0 copies all of them into a block without room. */
  method WildRun(mem: imap<int, int>, size: nat) returns (h: Heap, wild: bool, ghost c: Chunk, ghost o: Chunk)
    requires Total(mem) && size == 0xFFFF_FFF0
    ensures wild && c.size == 0 && o.size == 104 && c in h.chunks && o in h.chunks
    ensures h.mem == Copied(mem, c.Data(), o.Data(), o.size)
  {
    assert Len32(size) == 16;
    hide Copied, Tight, LiveOf, Len32, Consistent, Fits, LastFree, EndsFree;
    ghost var mid;
    var p, q;
    h, p, o := OneBlock(mem);
    InUse(h.chunks);
    assert o in h.chunks;
    q, wild, c, mid := h.Krealloc(p, size, Granted(16), true);
    assert c.size == 0;
    LiveMember(h.chunks, c);
    LiveMember(h.chunks, o);
  }

  lemma UsedAmong(cs: seq<Chunk>)
    requires Merged(cs)
    ensures |cs| >= 2 ==> LiveOf(cs) != {}
  {
    if |cs| >= 2 {
      assert !(cs[0].free && cs[0 + 1].free);
      assert (if cs[0].free then cs[1] else cs[0]) in LiveOf(cs);
    }
  }

  /** A chain without gaps in which nothing is in use is one free chunk. */
  lemma AllFree(cs: seq<Chunk>, l: seq<int>, avail: int, lo: int, hi: int)
    requires Consistent(cs, l, avail, lo, hi) && Tight(cs, lo, hi) && LiveOf(cs) == {} && lo < hi
    ensures cs == [Chunk(lo, hi - lo - HDR, true)]
  {
    hide Lists, FreeBytes, Merged;
    UsedAmong(cs);
    assert cs[0] !in LiveOf(cs);
    assert cs[0].addr == lo && cs[0].End() == hi;
  }

  lemma OneUsed(c: Chunk)
    requires !c.free
    ensures Tight([c], c.addr, c.End()) && (set x | x in LiveOf([c]) && x.Data() != c.Data()) == {}
  {}

  /** krealloc after kfree: the freed block is found, copied onto itself, freed again and returned all the same. */
  method DanglingRun(mem: imap<int, int>) returns (h: Heap, ptr: int, res: int)
    requires Total(mem)
    ensures h.Valid() && res == ptr != 0 && forall c | c in LiveOf(h.chunks) :: c.Data() != res
  {
    LenWraps(50);
    assert Len32(50) == 88;
    hide Tight, LiveOf, Len32, FirstFit, Headless, LastFree, EndsFree, Consistent, Frees;
    ghost var o, c, mid, wild;
    h, ptr, o := OneBlock(mem);
    OneUsed(o);
    assert o in h.chunks;
    h.Kfree(ptr, true);
    AllFree(h.chunks, h.freeList, h.avail, h.init + HDR, h.brk);
    assert h.chunks[0] in h.chunks;
    res, wild, c, mid := h.Krealloc(ptr, 50, Refused, true);
  }
}
