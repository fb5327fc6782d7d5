/**
 fmari_compress of init/demo_net.c: chunks coded with a model that adapts from chunk to chunk, and
 the spill behind them. A decoder for the whole container, and the proof that it recovers the source.
 */
module Compressor {
  import opened Words
  import opened AriModel
  import opened ArithmeticCoder
  import opened ChunkEncoder
  import opened Vbwl

  const ARIHDR: nat := 2
  const BLOCK_SIZE: nat := 4

  // ---------------------------------------------------------------- the container

  /** The running totals of the start table. */
  function StartModel(): (cp: seq<nat>)
    ensures ValidTotals(cp)
  {
    StartTableIsValid();
    TotalsOfFrequencies(StartTable());
    Cumulative(StartTable())
  }

  /** The running totals derived from a full chunk. */
  function NextModel(chunk: seq<Symbol>): (cp: seq<nat>)
    requires |chunk| == MAXFREQ
    ensures ValidTotals(cp)
  {
    AdaptedIsValid(chunk);
    TotalsOfFrequencies(Adapted(chunk));
    Cumulative(Adapted(chunk))
  }

  /** The width of a symbol in the next model: one, and as often as it occurs behind the first 257 symbols. */
  lemma {:induction false} NextModelCounts(chunk: seq<Symbol>, x: Symbol)
    requires |chunk| == MAXFREQ
    ensures NextModel(chunk)[x + 1] - NextModel(chunk)[x] == 1 + multiset(chunk[257..])[x]
  {
    CumulativeAt(Adapted(chunk), x);
    CountAt(Flat(), chunk[SPILL..], x);
  }

  /** Size in words of the arithmetic-coded part. */
  function StreamWords(cp: seq<nat>, src: seq<Word>): nat
    requires ValidTotals(cp)
    decreases |src|
  {
    if src == [] then 0
    else if |src| <= MAXFREQ then ChunkWords(cp, Symbols(src))
    else
      ChunkWords(cp, Symbols(src[..MAXFREQ])) + StreamWords(NextModel(Symbols(src[..MAXFREQ])), src[MAXFREQ..])
  }

  /** `ws` is the coded form of `src`, beginning with the model `cp`. */
  ghost predicate IsStream(ws: seq<Word>, cp: seq<nat>, src: seq<Word>)
    requires ValidTotals(cp)
    decreases |src|
  {
    if src == [] then ws == []
    else if |src| <= MAXFREQ then IsChunk(ws, cp, Symbols(src))
    else
      && WordAt(ws, 0) <= |ws|
      && IsChunk(ws[..WordAt(ws, 0)], cp, Symbols(src[..MAXFREQ]))
      && IsStream(ws[WordAt(ws, 0)..], NextModel(Symbols(src[..MAXFREQ])), src[MAXFREQ..])
  }

  /** The number of chunks, each full except perhaps the last one. */
  function Chunks(n: nat): nat { (n + MAXFREQ - 1) / MAXFREQ }

  /** The model of chunk `k`: the first one given, each other one from the chunk before. */
  function ModelAt(cp: seq<nat>, src: seq<Word>, k: nat): (m: seq<nat>)
    requires ValidTotals(cp) && MAXFREQ * k <= |src|
    ensures ValidTotals(m)
  {
    if k == 0 then cp else NextModel(Symbols(src[MAXFREQ * (k - 1)..MAXFREQ * k]))
  }

  /** Chunk `k` of the source. */
  function ChunkAt(src: seq<Word>, k: nat): seq<Word>
    requires MAXFREQ * k <= |src|
  {
    if MAXFREQ * (k + 1) <= |src| then src[MAXFREQ * k..MAXFREQ * (k + 1)] else src[MAXFREQ * k..]
  }

  /** Chunk `k` of the source is coded in the words between `at[k]` and `at[k + 1]`. */
  ghost predicate LaidOut(ws: seq<Word>, cp: seq<nat>, src: seq<Word>, at: seq<nat>)
    requires ValidTotals(cp)
  {
    && |at| == Chunks(|src|) + 1 && at[0] == 0 && at[|at| - 1] == |ws|
    && forall k: nat | k < Chunks(|src|) :: CodedAt(ws, cp, src, at, k)
  }

  ghost predicate CodedAt(ws: seq<Word>, cp: seq<nat>, src: seq<Word>, at: seq<nat>, k: nat)
    requires ValidTotals(cp) && k + 1 < |at|
  {
    && at[k] <= at[k + 1] <= |ws| && MAXFREQ * k <= |src|
    && IsChunk(ws[at[k]..at[k + 1]], ModelAt(cp, src, k), Symbols(ChunkAt(src, k)))
  }

  /** A stream is the coded chunks of the source, one after the other. */
  lemma {:induction false} StreamLayout(ws: seq<Word>, cp: seq<nat>, src: seq<Word>) returns (at: seq<nat>)
    requires ValidTotals(cp) && IsStream(ws, cp, src)
    ensures LaidOut(ws, cp, src, at)
    decreases |src|
  {
    hide NextModel, IsChunk;
    if src == [] {
      at := [0];
    } else if |src| <= MAXFREQ {
      at := [0, |ws|];
      assert ws[0..|ws|] == ws && ChunkAt(src, 0) == src;
    } else {
      var w, chunk, rest := WordAt(ws, 0), src[..MAXFREQ], src[MAXFREQ..];
      var next := NextModel(Symbols(chunk));
      var tail := StreamLayout(ws[w..], next, rest);
      at := [0] + seq(|tail|, i requires 0 <= i < |tail| => w + tail[i]);
      forall k: nat | k < Chunks(|src|) ensures CodedAt(ws, cp, src, at, k) {
        if k == 0 {
          assert ChunkAt(src, 0) == chunk && at[1] == w && ws[0..w] == ws[..w];
        } else {
          assert CodedAt(ws[w..], next, rest, tail, k - 1);
          LayoutStep(ws, cp, src, at, tail, w, k - 1);
        }
      }
    }
  }

  lemma {:induction false} LayoutStep(ws: seq<Word>, cp: seq<nat>, src: seq<Word>, at: seq<nat>, tail: seq<nat>, w: nat,
                                      k: nat)
    requires ValidTotals(cp) && |src| > MAXFREQ && w <= |ws| && k + 1 < |tail| && |at| == |tail| + 1
    requires at[k + 1] == w + tail[k] && at[k + 2] == w + tail[k + 1]
    requires CodedAt(ws[w..], NextModel(Symbols(src[..MAXFREQ])), src[MAXFREQ..], tail, k)
    ensures CodedAt(ws, cp, src, at, k + 1)
  {
    assert ws[w..][tail[k]..tail[k + 1]] == ws[at[k + 1]..at[k + 2]];
    ShiftedChunk(src, k);
    ShiftedModel(cp, src, k);
    hide NextModel, IsChunk, ModelAt, ChunkAt;
  }

  lemma ShiftedChunk(src: seq<Word>, k: nat)
    requires |src| > MAXFREQ && MAXFREQ * k <= |src[MAXFREQ..]|
    ensures MAXFREQ * (k + 1) <= |src| && ChunkAt(src[MAXFREQ..], k) == ChunkAt(src, k + 1)
  {
    var a, b := MAXFREQ * k, MAXFREQ * (k + 1);
    assert b == a + MAXFREQ;
    assert src[MAXFREQ..][a..] == src[b..];
    if b <= |src| - MAXFREQ {
      assert src[MAXFREQ..][a..b] == src[b..b + MAXFREQ];
    }
  }

  lemma ShiftedModel(cp: seq<nat>, src: seq<Word>, k: nat)
    requires ValidTotals(cp) && |src| > MAXFREQ && MAXFREQ * k <= |src[MAXFREQ..]|
    ensures MAXFREQ * (k + 1) <= |src|
    ensures ModelAt(NextModel(Symbols(src[..MAXFREQ])), src[MAXFREQ..], k) == ModelAt(cp, src, k + 1)
  {
    hide NextModel;
    if k > 0 {
      var a, b := MAXFREQ * (k - 1), MAXFREQ * k;
      assert b == a + MAXFREQ;
      assert src[MAXFREQ..][a..b] == src[b..b + MAXFREQ];
    }
  }

  function Skip(ws: seq<Word>, k: nat): seq<Word> { if k <= |ws| then ws[k..] else [] }

  /** Read a word; a truncated container reads as zeros. */
  function WordAt(ws: seq<Word>, i: nat): Word { if i < |ws| then ws[i] else 0 }

  /** The spill values as they are stored: less the 256 that every one of them has. */
  function Biased(spill: seq<Word>): (b: seq<Word>)
    requires forall i | 0 <= i < |spill| :: spill[i] >= ROWS
    ensures |b| == |spill| && forall i | 0 <= i < |spill| :: b[i] == spill[i] - ROWS
  {
    seq(|spill|, i requires 0 <= i < |spill| => spill[i] - ROWS)
  }

  lemma {:induction false} SpillIsLarge(ws: seq<Word>)
    ensures forall i | 0 <= i < |Spill(ws)| :: Spill(ws)[i] >= ROWS
    ensures |Spill(ws)| <= |ws|
  {
    if ws != [] { SpillIsLarge(ws[..|ws| - 1]); }
  }

  /** `ws` is what fmari_compress leaves in the output buffer for `src`. */
  ghost predicate IsCompressed(ws: seq<Word>, src: seq<Word>) {
    var sc := WordAt(ws, 1);
    && ARIHDR + sc < |ws| && ws[0] == |src|
    && IsStream(ws[ARIHDR..ARIHDR + sc], StartModel(), src)
    && HasSpill(ws, ARIHDR + sc, src)
  }

  /** The spill of `src`, preceded by its length, stands at word `at`. */
  ghost predicate HasSpill(ws: seq<Word>, at: nat, src: seq<Word>)
    requires at < |ws|
  {
    SpillIsLarge(src);
    ws[at] == |Spill(src)| && Holds(Stream(ws), 32 * at + 32, Blocks(Biased(Spill(src)), BLOCK_SIZE, CODE_BITS))
  }

  /**
   The container: two header words, the coded stream, the number of large words, and these less 256 in blocks of 4 with
   width codes of 5 bits.
   */
  lemma ContainerLayout(ws: seq<Word>, src: seq<Word>, sc: nat, large: seq<Word>, bs: nat, cb: nat)
    requires IsCompressed(ws, src) && sc == WordAt(ws, 1) && large == Spill(src) && bs == 4 && cb == 5
    ensures 2 + sc < |ws| && ws[0] == |src| && ws[1] == sc && IsStream(ws[2..2 + sc], StartModel(), src)
    ensures ws[2 + sc] == |large| && forall i | 0 <= i < |large| :: large[i] >= 256
    ensures Holds(Stream(ws), 32 * (3 + sc), Blocks(Biased(large), bs, cb))
  {
    hide Blocks, Spill, Stream, IsStream, StartModel, Holds, Biased;
    SpillIsLarge(src);
  }

  // ---------------------------------------------------------------- decoding

  /** Decode the chunks one after the other, rebuilding each model from the chunk before. */
  function DecodeStream(cp: seq<nat>, ws: seq<Word>, n: nat): (s: seq<Symbol>)
    requires ValidTotals(cp)
    ensures |s| == n
    decreases n
  {
    if n <= MAXFREQ then DecodeChunk(cp, ws, n)
    else
      var chunk := DecodeChunk(cp, ws, MAXFREQ);
      chunk + DecodeStream(NextModel(chunk), Skip(ws, WordAt(ws, 0)), n - MAXFREQ)
  }

  /** Put the spill values back where the escape symbols stand. */
  function Splice(syms: seq<Symbol>, spill: seq<Word>): (ws: seq<Word>)
    ensures |ws| == |syms|
  {
    if syms == [] then []
    else if syms[0] < ROWS then [syms[0]] + Splice(syms[1..], spill)
    else if spill == [] then [0] + Splice(syms[1..], [])
    else [AsWord(spill[0] + ROWS)] + Splice(syms[1..], spill[1..])
  }

  function ReadSpill(ws: seq<Word>, at: nat): seq<Word> {
    ReadBlocks(Stream(ws), 32 * at + 32, WordAt(ws, at), BLOCK_SIZE, CODE_BITS)
  }

  /** The decompressor. */
  function Decompress(ws: seq<Word>): seq<Word> {
    Splice(DecodeStream(StartModel(), Skip(ws, ARIHDR), WordAt(ws, 0)), ReadSpill(ws, ARIHDR + WordAt(ws, 1)))
  }

  // ---------------------------------------------------------------- correctness

  lemma {:induction false} SpillFront(ws: seq<Word>)
    requires ws != []
    ensures Spill(ws) == (if ws[0] < ROWS then [] else [ws[0]]) + Spill(ws[1..])
    decreases |ws|
  {
    var init, tail := ws[..|ws| - 1], ws[1..];
    var last := if ws[|ws| - 1] < ROWS then [] else [ws[|ws| - 1]];
    if init == [] {
      assert tail == [];
    } else {
      SpillFront(init);
      assert tail[..|tail| - 1] == init[1..];
      Regroup(if ws[0] < ROWS then [] else [ws[0]], Spill(init[1..]), last);
    }
  }

  /** Splicing the spill back into the symbols restores the words. */
  lemma {:induction false} SpliceRestores(src: seq<Word>, syms: seq<Symbol>, biased: seq<Word>)
    requires syms == Symbols(src) && |biased| == |Spill(src)|
    requires forall i | 0 <= i < |biased| :: biased[i] + ROWS == Spill(src)[i]
    ensures Splice(syms, biased) == src
    decreases |src|
  {
    if src != [] {
      SpillFront(src);
      assert syms[1..] == Symbols(src[1..]);
      SpliceRestores(src[1..], syms[1..], if src[0] < ROWS then biased else biased[1..]);
    }
  }

  lemma FirstChunk(head: seq<Word>, rest: seq<Word>, cp: seq<nat>, syms: seq<Symbol>, all: seq<Word>)
    requires ValidTotals(cp) && IsChunk(head, cp, syms) && all == head + rest
    ensures DecodeChunk(cp, all, |syms|) == syms
    ensures Skip(all, WordAt(all, 0)) == rest
  {
    ChunkDecodes(cp, head, syms, rest, all);
    assert all[0] == head[0] == |head|;
  }

  /** One step of decoding a stream of several chunks. */
  lemma DecodeStep(head: seq<Word>, rest: seq<Word>, cp: seq<nat>, chunk: seq<Symbol>, all: seq<Word>, n: nat)
    requires ValidTotals(cp) && |chunk| == MAXFREQ < n && IsChunk(head, cp, chunk) && all == head + rest
    ensures DecodeStream(cp, all, n) == chunk + DecodeStream(NextModel(chunk), rest, n - MAXFREQ)
  {
    FirstChunk(head, rest, cp, chunk, all);
  }

  lemma Split(ws: seq<Word>, k: nat, after: seq<Word>, all: seq<Word>)
    requires k <= |ws| && all == ws + after
    ensures all == ws[..k] + (ws[k..] + after)
  {}

  /** Decoding a stream yields the symbols of the source, whatever words follow it. */
  lemma {:induction false} StreamDecodes(ws: seq<Word>, cp: seq<nat>, src: seq<Word>, after: seq<Word>, all: seq<Word>)
    requires ValidTotals(cp) && IsStream(ws, cp, src) && all == ws + after
    ensures DecodeStream(cp, all, |src|) == Symbols(src)
    decreases |src|, 1, 0
  {
    StreamParts(ws, cp, src);
    hide NextModel, IsChunk, DecodeChunk, ChunkWords, IsStream;
    if src == [] {
      assert Symbols(src) == [];
    } else if |src| <= MAXFREQ {
      ChunkDecodes(cp, ws, Symbols(src), after, all);
    } else {
      hide DecodeStream;
      LongStreamDecodes(ws, cp, src, after, all, WordAt(ws, 0));
    }
  }

  lemma {:induction false} LongStreamDecodes(ws: seq<Word>, cp: seq<nat>, src: seq<Word>, after: seq<Word>,
                                             all: seq<Word>, k: nat)
    requires ValidTotals(cp) && all == ws + after && |src| > MAXFREQ && k <= |ws|
    requires IsChunk(ws[..k], cp, Symbols(src[..MAXFREQ]))
    requires IsStream(ws[k..], NextModel(Symbols(src[..MAXFREQ])), src[MAXFREQ..])
    ensures DecodeStream(cp, all, |src|) == Symbols(src)
    decreases |src|, 0, 1
  {
    hide NextModel, IsChunk, DecodeStream, IsStream;
    SymbolsSplit(src, MAXFREQ);
    Split(ws, k, after, all);
    ManyChunksDecode(ws[..k], ws[k..], cp, Symbols(src[..MAXFREQ]), src[MAXFREQ..], after, ws[k..] + after, all);
  }

  lemma {:induction false} StreamParts(ws: seq<Word>, cp: seq<nat>, src: seq<Word>)
    requires ValidTotals(cp) && IsStream(ws, cp, src)
    ensures 0 < |src| <= MAXFREQ ==> IsChunk(ws, cp, Symbols(src))
    ensures |src| > MAXFREQ ==> WordAt(ws, 0) <= |ws| && IsChunk(ws[..WordAt(ws, 0)], cp, Symbols(src[..MAXFREQ]))
    ensures |src| > MAXFREQ ==> IsStream(ws[WordAt(ws, 0)..], NextModel(Symbols(src[..MAXFREQ])), src[MAXFREQ..])
  {
    hide NextModel, IsChunk;
  }

  lemma {:induction false} ManyChunksDecode(head: seq<Word>, tail: seq<Word>, cp: seq<nat>, chunk: seq<Symbol>,
                                            rest: seq<Word>, after: seq<Word>, others: seq<Word>, all: seq<Word>)
    requires ValidTotals(cp) && others == tail + after && all == head + others
    requires |chunk| == MAXFREQ && rest != []
    requires IsChunk(head, cp, chunk) && IsStream(tail, NextModel(chunk), rest)
    ensures DecodeStream(cp, all, MAXFREQ + |rest|) == chunk + Symbols(rest)
    decreases MAXFREQ + |rest|, 0, 0
  {
    hide NextModel, IsChunk, DecodeStream, IsStream;
    StreamDecodes(tail, NextModel(chunk), rest, after, others);
    DecodeStep(head, others, cp, chunk, all, MAXFREQ + |rest|);
  }

  lemma SymbolsSplit(src: seq<Word>, k: nat)
    requires k <= |src|
    ensures Symbols(src) == Symbols(src[..k]) + Symbols(src[k..])
  {}

  lemma SpillReads(ws: seq<Word>, at: nat, src: seq<Word>)
    requires at < |ws| && HasSpill(ws, at, src)
    ensures Splice(Symbols(src), ReadSpill(ws, at)) == src
  {
    SpillIsLarge(src);
    WidthCodeSuffices();
    BlocksRoundTrip(Stream(ws), 32 * at + 32, Biased(Spill(src)), BLOCK_SIZE, CODE_BITS);
    SpliceRestores(src, Symbols(src), Biased(Spill(src)));
  }

  lemma WidthCodeSuffices()
    ensures 32 - MIN_WIDTH <= Ones(CODE_BITS)
  {}

  /** End to end: the decompressor recovers every source from its compressed form. */
  lemma DecompressUndoesCompress(ws: seq<Word>, src: seq<Word>)
    requires IsCompressed(ws, src)
    ensures Decompress(ws) == src
  {
    var at := ARIHDR + WordAt(ws, 1);
    assert Skip(ws, ARIHDR) == ws[ARIHDR..at] + ws[at..];
    StreamDecodes(ws[ARIHDR..at], StartModel(), src, ws[at..], Skip(ws, ARIHDR));
    SpillReads(ws, at, src);
  }

  // ---------------------------------------------------------------- the compressor

  /** Coding `rest` with the model `cp` behind `done` completes the coded form of `src`. */
  ghost predicate Extends(done: seq<Word>, src: seq<Word>, cp: seq<nat>, rest: seq<Word>)
    requires ValidTotals(cp)
  {
    forall ws: seq<Word> | IsStream(ws, cp, rest) :: IsStream(done + ws, StartModel(), src)
  }

  lemma ExtendByChunk(done: seq<Word>, src: seq<Word>, cp: seq<nat>, rest: seq<Word>, chunk: seq<Word>)
    requires ValidTotals(cp) && Extends(done, src, cp, rest) && |rest| > MAXFREQ
    requires IsChunk(chunk, cp, Symbols(rest[..MAXFREQ]))
    ensures Extends(done + chunk, src, NextModel(Symbols(rest[..MAXFREQ])), rest[MAXFREQ..])
  {
    hide NextModel, IsChunk;
    var next := NextModel(Symbols(rest[..MAXFREQ]));
    forall ws: seq<Word> | IsStream(ws, next, rest[MAXFREQ..]) ensures IsStream(done + chunk + ws, StartModel(), src) {
      ChunkThenStream(chunk, ws, cp, rest);
      Regroup(done, chunk, ws);
    }
  }

  lemma ChunkThenStream(chunk: seq<Word>, ws: seq<Word>, cp: seq<nat>, rest: seq<Word>)
    requires ValidTotals(cp) && |rest| > MAXFREQ && IsChunk(chunk, cp, Symbols(rest[..MAXFREQ]))
    requires IsStream(ws, NextModel(Symbols(rest[..MAXFREQ])), rest[MAXFREQ..])
    ensures IsStream(chunk + ws, cp, rest)
  {
    hide NextModel, Code, Stream;
    var all := chunk + ws;
    assert all[0] == chunk[0] == |chunk|;
    assert all[..|chunk|] == chunk && all[|chunk|..] == ws;
  }

  /** initAriTable: the start table, whatever the mode. */
  method InitAriTable(destmodel: array<nat>)
    requires destmodel.Length == SPILL
    modifies destmodel
    ensures destmodel[..] == StartTable()
  {
    var table := StartTable();
    var i := 0;
    while i < SPILL
      invariant i <= SPILL
      invariant forall j | 0 <= j < i :: destmodel[j] == table[j]
    {
      destmodel[i] := table[i];
      i := i + 1;
    }
  }

  /** The start model in the tables, nothing spilled. */
  method InitModel(m: Model)
    requires m.Valid() && m.spillctr == 0
    modifies m.freqtable, m.cptable
    ensures m.Valid() && m.cptable[..] == StartModel()
  {
    InitAriTable(m.freqtable);
    var probability := MakeCumulative(m.freqtable, SPILL, m.cptable);
    assert m.freqtable[..SPILL] == m.freqtable[..] && m.cptable[..SPILL + 1] == m.cptable[..];
  }

  method AdaptModel(m: Model, source: array<Word>, start: nat, ghost chunk: seq<Word>)
    requires m.Valid() && start + MAXFREQ <= source.Length && chunk == source[start..start + MAXFREQ]
    modifies m.freqtable, m.cptable
    ensures m.cptable[..] == NextModel(Symbols(chunk))
  {
    var probability := UpdateModel(source, start, MAXFREQ, SPILL, 1, m.freqtable, m.cptable);
    assert Rest(source[start..start + MAXFREQ], SPILL) == chunk[SPILL..];
    assert Symbols(chunk[SPILL..]) == Symbols(chunk)[SPILL..];
    assert seq(SPILL, _ => 1) == Flat();
  }

  /** Words of the whole container. */
  function CompressedWords(src: seq<Word>): nat {
    ARIHDR + StreamWords(StartModel(), src) + SpillWords(src)
  }

  lemma ContainerSize(src: seq<Word>)
    ensures CompressedWords(src) == ARIHDR + StreamWords(StartModel(), src) + SpillWords(src)
  {
    hide StreamWords, SpillWords, StartModel;
  }

  function SpillWords(src: seq<Word>): nat {
    SpillIsLarge(src);
    (32 + |Blocks(Biased(Spill(src)), BLOCK_SIZE, CODE_BITS)| + 31) / 32
  }

  /** The buffers do not overlap. */
  ghost predicate Separate(source: array<Word>, dest: array<Word>, m: Model) {
    source != dest && source != m.spillover && dest != m.spillover
  }

  /** `*streamctr_w += fmari_encode_chunk(...)`. */
  method AppendChunk(enc: Encoder, source: array<Word>, start: nat, size: nat, dest: array<Word>, m: Model,
                     ghost chunk: seq<Word>)
    requires m.Valid() && ValidTotals(m.cptable[..]) && Separate(source, dest, m)
    requires start + size <= source.Length && chunk == source[start..start + size]
    requires ARIHDR <= dest.Length < WORD_LIMIT
    requires ARIHDR + dest[1] + ChunkWords(m.cptable[..], Symbols(chunk)) <= dest.Length
    requires |m.Spilled()| + |Spill(chunk)| <= m.spillover.Length
    modifies enc, dest, m, m.spillover
    ensures m.Valid() && m.Spilled() == old(m.Spilled()) + Spill(chunk)
    ensures dest[0] == old(dest[0]) && dest[1] == old(dest[1]) + ChunkWords(m.cptable[..], Symbols(chunk))
    ensures ARIHDR + dest[1] <= dest.Length
    ensures dest[ARIHDR..ARIHDR + old(dest[1])] == old(dest[ARIHDR..ARIHDR + dest[1]])
    ensures IsChunk(dest[ARIHDR + old(dest[1])..ARIHDR + dest[1]], m.cptable[..], Symbols(chunk))
  {
    hide ChunkWords, Spill, Code, Stream;
    ghost var was, base := dest[..], ARIHDR + dest[1];
    var words := EncodeChunk(enc, source, start, size, dest, ARIHDR + dest[1], m);
    assert dest[..base] == was[..base];
    assert dest[0] == dest[..base][0] && dest[1] == dest[..base][1];
    ghost var coded := dest[base..base + words];
    dest[1] := dest[1] + words;
    assert dest[base..base + words] == coded;
    assert dest[ARIHDR..base] == was[ARIHDR..base];
  }

  /** How far the compression of `src` has come: `rest` is left, to be coded with the model `cp`. */
  ghost predicate Progress(ws: seq<Word>, src: seq<Word>, cp: seq<nat>, rest: seq<Word>) {
    && ARIHDR <= |ws| && ws[0] == |src| && ARIHDR + ws[1] <= |ws|
    && ValidTotals(cp) && Extends(ws[ARIHDR..ARIHDR + ws[1]], src, cp, rest)
    && ws[1] + StreamWords(cp, rest) == StreamWords(StartModel(), src)
  }

  lemma ProgressByChunk(was: seq<Word>, now: seq<Word>, src: seq<Word>, cp: seq<nat>, rest: seq<Word>, chunk: seq<Word>)
    requires Progress(was, src, cp, rest) && |now| == |was| && |rest| > MAXFREQ
    requires now[0] == was[0] && now[1] == was[1] + |chunk| && ARIHDR + now[1] <= |now|
    requires now[ARIHDR..ARIHDR + was[1]] == was[ARIHDR..ARIHDR + was[1]]
    requires now[ARIHDR + was[1]..ARIHDR + now[1]] == chunk && IsChunk(chunk, cp, Symbols(rest[..MAXFREQ]))
    ensures Progress(now, src, NextModel(Symbols(rest[..MAXFREQ])), rest[MAXFREQ..])
  {
    hide NextModel, Code, Stream, Extends, ChunkWords;
    var done := was[ARIHDR..ARIHDR + was[1]];
    ExtendByChunk(done, src, cp, rest, chunk);
    assert now[ARIHDR..ARIHDR + now[1]] == done + chunk;
  }

  /** One turn of the chunk loop. */
  method CompressChunk(enc: Encoder, source: array<Word>, start: nat, dest: array<Word>, m: Model,
                       ghost src: seq<Word>, ghost rest: seq<Word>, ghost chunk: seq<Word>)
    requires m.Valid() && Separate(source, dest, m) && dest.Length < WORD_LIMIT
    requires |rest| > MAXFREQ && start + |rest| <= source.Length && rest == source[start..start + |rest|]
    requires chunk == rest[..MAXFREQ]
    requires Progress(dest[..], src, m.cptable[..], rest) && CompressedWords(src) <= dest.Length
    requires |m.Spilled()| + |Spill(chunk)| <= m.spillover.Length
    modifies enc, dest, m, m.spillover, m.freqtable, m.cptable
    ensures m.Valid() && m.Spilled() == old(m.Spilled()) + Spill(chunk)
    ensures Progress(dest[..], src, m.cptable[..], rest[MAXFREQ..])
  {
    hide ChunkWords, Spill, NextModel, Extends;
    ghost var was, cp := dest[..], m.cptable[..];
    assert chunk == source[start..start + MAXFREQ];
    AppendChunk(enc, source, start, MAXFREQ, dest, m, chunk);
    ProgressByChunk(was, dest[..], src, cp, rest, dest[ARIHDR + was[1]..ARIHDR + dest[1]]);
    AdaptModel(m, source, start, chunk);
  }

  lemma ProgressStart(ws: seq<Word>, src: seq<Word>)
    requires ARIHDR <= |ws| && ws[0] == |src| && ws[1] == 0
    ensures Progress(ws, src, StartModel(), src)
  {
    hide StartModel, IsStream;
    var done := ws[ARIHDR..ARIHDR + ws[1]];
    assert done == [];
    forall t: seq<Word> | IsStream(t, StartModel(), src) ensures IsStream(done + t, StartModel(), src) {
      assert done + t == t;
    }
  }

  /** The last chunk, or nothing, is a stream. */
  lemma {:induction false} LastStream(chunk: seq<Word>, cp: seq<nat>, rest: seq<Word>)
    requires ValidTotals(cp) && |rest| <= MAXFREQ
    requires if rest == [] then chunk == [] else IsChunk(chunk, cp, Symbols(rest))
    ensures IsStream(chunk, cp, rest) && |chunk| == StreamWords(cp, rest)
  {}

  /** After it the coded form is complete. */
  lemma {:induction false} ProgressEnd(was: seq<Word>, now: seq<Word>, src: seq<Word>, cp: seq<nat>, rest: seq<Word>,
                                       chunk: seq<Word>)
    requires Progress(was, src, cp, rest) && |now| == |was| && |rest| <= MAXFREQ
    requires now[0] == was[0] && now[1] == was[1] + |chunk| && ARIHDR + now[1] <= |now|
    requires now[ARIHDR..ARIHDR + was[1]] == was[ARIHDR..ARIHDR + was[1]]
    requires now[ARIHDR + was[1]..ARIHDR + now[1]] == chunk
    requires if rest == [] then chunk == [] else IsChunk(chunk, cp, Symbols(rest))
    ensures now[1] == StreamWords(StartModel(), src)
    ensures IsStream(now[ARIHDR..ARIHDR + now[1]], StartModel(), src)
  {
    LastStream(chunk, cp, rest);
    hide StartModel, Code, Stream, ChunkWords, IsStream, IsChunk, StreamWords;
    var done := was[ARIHDR..ARIHDR + was[1]];
    assert IsStream(done + chunk, StartModel(), src);
    assert now[ARIHDR..ARIHDR + now[1]] == done + chunk;
  }

  lemma {:induction false} SpillPrefix(src: seq<Word>, k: nat, n: nat)
    requires k + n <= |src|
    ensures Spill(src[..k + n]) == Spill(src[..k]) + Spill(src[k..k + n])
    ensures |Spill(src[..k + n])| <= |Spill(src)|
    decreases n
  {
    hide Spill;
    SpillShorter(src, k + n);
    var a, b := src[..k + n], src[k..k + n];
    SpillBack(a);
    SpillBack(b);
    if n == 0 {
      assert a == src[..k];
    } else {
      SpillPrefix(src, k, n - 1);
      assert a[..k + n - 1] == src[..k + n - 1] && b[..n - 1] == src[k..k + n - 1];
      assert a[k + n - 1] == b[n - 1];
    }
  }

  lemma {:induction false} SpillBack(ws: seq<Word>)
    ensures ws == [] ==> Spill(ws) == []
    ensures var n := |ws| - 1; n >= 0 ==> Spill(ws) == Spill(ws[..n]) + if ws[n] < ROWS then [] else [ws[n]]
  {}

  lemma {:induction false} SpillShorter(src: seq<Word>, k: nat)
    requires k <= |src|
    ensures |Spill(src[..k])| <= |Spill(src)|
    decreases |src|
  {
    if k < |src| {
      SpillShorter(src[..|src| - 1], k);
      assert src[..|src| - 1][..k] == src[..k];
    } else {
      assert src[..k] == src;
    }
  }

  /** The chunk loop of fmari_compress. */
  method CompressChunks(enc: Encoder, source: array<Word>, nwords: nat, dest: array<Word>, m: Model,
                        ghost src: seq<Word>)
    requires m.Valid() && m.Spilled() == [] && Separate(source, dest, m) && dest.Length < WORD_LIMIT
    requires nwords <= source.Length && src == source[..nwords]
    requires Progress(dest[..], src, m.cptable[..], src) && CompressedWords(src) <= dest.Length
    requires |Spill(src)| <= m.spillover.Length
    modifies enc, dest, m, m.spillover, m.freqtable, m.cptable
    ensures m.Valid() && m.Spilled() == Spill(src)
    ensures ARIHDR + dest[1] <= dest.Length && dest[0] == nwords && dest[1] == StreamWords(StartModel(), src)
    ensures IsStream(dest[ARIHDR..ARIHDR + dest[1]], StartModel(), src)
  {
    hide Spill, Progress, IsStream, StreamWords, CompressedWords, StartModel;
    var remaining, srcCtr := nwords, 0;
    ghost var rest := src;
    assert Spill(src[..0]) == [] by { SpillIsLarge(src[..0]); }
    while remaining > MAXFREQ
      invariant m.Valid() && srcCtr + remaining == nwords && |rest| == remaining && rest == source[srcCtr..nwords]
      invariant m.Spilled() == Spill(src[..srcCtr])
      invariant Progress(dest[..], src, m.cptable[..], rest)
    {
      ghost var chunk := rest[..MAXFREQ];
      assert chunk == src[srcCtr..srcCtr + MAXFREQ];
      SpillPrefix(src, srcCtr, MAXFREQ);
      CompressChunk(enc, source, srcCtr, dest, m, src, rest, chunk);
      srcCtr := srcCtr + MAXFREQ;
      remaining := remaining - MAXFREQ;
      rest := rest[MAXFREQ..];
    }
    assert rest == src[srcCtr..srcCtr + remaining] && src[..srcCtr + remaining] == src;
    SpillPrefix(src, srcCtr, remaining);
    CompressLast(enc, source, srcCtr, remaining, dest, m, src, rest);
  }

  /** The last, possibly partial chunk. */
  method CompressLast(enc: Encoder, source: array<Word>, start: nat, remaining: nat, dest: array<Word>, m: Model,
                      ghost src: seq<Word>, ghost rest: seq<Word>)
    requires m.Valid() && Separate(source, dest, m) && dest.Length < WORD_LIMIT
    requires |rest| == remaining <= MAXFREQ && start + remaining <= source.Length
             && rest == source[start..start + remaining]
    requires Progress(dest[..], src, m.cptable[..], rest) && CompressedWords(src) <= dest.Length
    requires |m.Spilled()| + |Spill(rest)| <= m.spillover.Length
    modifies enc, dest, m, m.spillover
    ensures m.Valid() && m.Spilled() == old(m.Spilled()) + Spill(rest)
    ensures ARIHDR + dest[1] <= dest.Length && dest[0] == |src| && dest[1] == StreamWords(StartModel(), src)
    ensures IsStream(dest[ARIHDR..ARIHDR + dest[1]], StartModel(), src)
  {
    hide ChunkWords, IsChunk, Extends, IsStream, StartModel;
    ghost var was, cp := dest[..], m.cptable[..];
    if remaining > 0 {
      AppendChunk(enc, source, start, remaining, dest, m, rest);
    }
    ProgressEnd(was, dest[..], src, cp, rest, dest[ARIHDR + was[1]..ARIHDR + dest[1]]);
  }

  /** Subtract the bias from the spill, in place. */
  method BiasSpill(m: Model, ghost spill: seq<Word>)
    requires m.Valid() && m.Spilled() == spill && forall i | 0 <= i < |spill| :: spill[i] >= ROWS
    modifies m.spillover
    ensures m.Spilled() == Biased(spill)
  {
    var ctr := 0;
    while ctr < m.spillctr
      invariant ctr <= m.spillctr
      invariant forall i | 0 <= i < ctr :: m.spillover[i] == spill[i] - ROWS
      invariant forall i | ctr <= i < m.spillctr :: m.spillover[i] == spill[i]
    {
      m.spillover[ctr] := m.spillover[ctr] - ROWS;
      ctr := ctr + 1;
    }
  }

  /** fmari_compress: the output holds the compressed form, and the decompressor recovers the source from it. */
  method Compress(enc: Encoder, source: array<Word>, nwords: Word, dest: array<Word>, m: Model) returns (size: nat)
    requires m.Valid() && m.spillctr == 0 && Separate(source, dest, m)
    requires nwords <= source.Length && CompressedWords(source[..nwords]) <= dest.Length < WORD_LIMIT
    requires |Spill(source[..nwords])| <= m.spillover.Length
    modifies enc, dest, m, m.spillover, m.freqtable, m.cptable
    ensures size == CompressedWords(source[..nwords]) && IsCompressed(dest[..size], source[..nwords])
    ensures dest[0] == nwords && dest[1] == StreamWords(StartModel(), source[..nwords])
    ensures 2 + dest[1] < size && dest[2 + dest[1]] == |Spill(source[..nwords])|
    ensures Decompress(dest[..size]) == source[..nwords] == old(source[..nwords])
  {
    hide Spill, IsStream, Decompress, Progress, IsCompressed, Stream, Blocks, StreamWords, StartModel, CompressedWords;
    ghost var src := source[..nwords];
    SpillIsLarge(src);
    ContainerSize(src);
    dest[0] := nwords;
    dest[1] := 0;
    InitModel(m);
    ProgressStart(dest[..], src);
    CompressChunks(enc, source, nwords, dest, m, src);
    BiasSpill(m, Spill(src));
    ghost var coded, at := dest[..], ARIHDR + dest[1];
    var spillWords := VbwlMidsize(m.spillover, m.spillctr, dest, ARIHDR + dest[1], BLOCK_SIZE);
    size := ARIHDR + dest[1] + spillWords;
    CompressedParts(coded, dest[..], src, at, size);
    DecompressUndoesCompress(dest[..size], src);
  }

  /** The coded stream, left alone while the spill was written, and the spill make the container. */
  lemma {:induction false} CompressedParts(coded: seq<Word>, ws: seq<Word>, src: seq<Word>, at: nat, size: nat)
    requires |coded| == |ws| && ARIHDR <= at < |ws| && at < size <= |ws| && coded[..at] == ws[..at]
    requires coded[0] == |src| && coded[1] == at - ARIHDR && IsStream(coded[ARIHDR..at], StartModel(), src)
    requires HasSpill(ws, at, src) && size == at + SpillWords(src)
    ensures IsCompressed(ws[..size], src)
  {
    hide StartModel, IsStream, Spill, Blocks, Stream;
    SpillIsLarge(src);
    var cut, bits := ws[..size], Blocks(Biased(Spill(src)), BLOCK_SIZE, CODE_BITS);
    assert ws[0] == ws[..at][0] == coded[..at][0] && ws[1] == ws[..at][1] == coded[..at][1];
    assert cut[ARIHDR..at] == ws[..at][ARIHDR..] == coded[..at][ARIHDR..] == coded[ARIHDR..at];
    HoldsCut(ws, size, 32 * at + 32, bits);
  }

  lemma HoldsCut(ws: seq<Word>, size: nat, off: nat, bits: seq<bool>)
    requires size <= |ws| && Holds(Stream(ws), off, bits) && off + |bits| <= 32 * size
    ensures Holds(Stream(ws[..size]), off, bits)
  {
    StreamSplit(ws, size);
    forall i | 0 <= i < |bits| ensures Stream(ws[..size])[off + i] == bits[i] {
      assert Stream(ws)[off + i] == bits[i];
    }
  }

  // ---------------------------------------------------------------- how large the output can get

  /** Words that suffice for the output, whatever the `n` source words are. */
  function BufferWords(n: nat): nat { ARIHDR + (n + 2) + (63 + 37 * n) / 32 }

  lemma ChunkBound(cp: seq<nat>, syms: seq<Symbol>)
    requires ValidTotals(cp)
    ensures ChunkWords(cp, syms) <= 1 + (16 * |syms| + 33) / 32
  {
    hide Code;
    CodeLength(cp, FULL, syms, 16);
  }

  lemma {:induction false} StreamBound(cp: seq<nat>, src: seq<Word>)
    requires ValidTotals(cp)
    ensures StreamWords(cp, src) <= |src| + 2
    ensures |src| > MAXFREQ ==> StreamWords(cp, src) <= |src|
    decreases |src|
  {
    hide ChunkWords, NextModel;
    if src == [] {
    } else if |src| <= MAXFREQ {
      ChunkBound(cp, Symbols(src));
    } else {
      ChunkBound(cp, Symbols(src[..MAXFREQ]));
      StreamBound(NextModel(Symbols(src[..MAXFREQ])), src[MAXFREQ..]);
    }
  }

  /** A destination of that size is enough for every source of that length. */
  lemma BufferSuffices(src: seq<Word>)
    ensures CompressedWords(src) <= BufferWords(|src|) && |Spill(src)| <= |src|
  {
    hide StreamWords, Blocks, StartModel, Spill;
    StreamBound(StartModel(), src);
    SpillIsLarge(src);
    BlocksLength(Biased(Spill(src)), BLOCK_SIZE, CODE_BITS);
  }
}
