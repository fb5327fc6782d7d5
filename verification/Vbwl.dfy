/**
 Variable block word length coding of the spill values (init/demo_net.c: bits_used, vbwl_midsize),
 its decoder, and the round trip.
 */
module Vbwl {
  import opened Words
  import opened BitStream

  const CODE_BITS: nat := 5   // VBWLCODE
  const MIN_WIDTH: nat := 9   // VBWLMINW

  /** bits_used: the number of bits up to and including the highest one set. */
  method BitsUsed(num: Word) returns (u: nat)
    ensures u == Length(num) <= 32
  {
    var n := num;
    u := 0;
    while n != 0
      invariant 0 <= n && Length(num) == u + Length(n)
      decreases n
    {
      n := n / 2;
      u := u + 1;
    }
    LengthOfWord(num);
  }

  lemma LengthOfWord(x: Word)
    ensures Length(x) <= 32
  {
    Ones32();
    LengthFits(x, 32);
  }

  /** The width of a block: the longest of its words, and at least nine. */
  function BlockWidth(ws: seq<Word>): (w: nat)
    ensures w >= MIN_WIDTH
  {
    if ws == [] then MIN_WIDTH else Max(Length(ws[|ws| - 1]), BlockWidth(ws[..|ws| - 1]))
  }

  lemma {:induction false} BlockWidthBound(ws: seq<Word>)
    ensures BlockWidth(ws) <= 32
    decreases |ws|
  {
    if ws != [] {
      LengthOfWord(ws[|ws| - 1]);
      BlockWidthBound(ws[..|ws| - 1]);
    }
  }

  function Max(a: nat, b: nat): nat { if a > b then a else b }

  lemma {:induction false} BlockWidthFits(ws: seq<Word>, i: nat)
    requires i < |ws|
    ensures ws[i] <= Ones(BlockWidth(ws))
    decreases |ws|
  {
    var n := |ws| - 1;
    if i < n {
      BlockWidthFits(ws[..n], i);
      LengthFits(ws[i], BlockWidth(ws[..n]));
    }
    LengthFits(ws[i], BlockWidth(ws));
  }

  /** It is the least width from nine on in which every word of the block can be written. */
  lemma {:induction false} BlockWidthLeast(ws: seq<Word>, w: nat)
    ensures BlockWidth(ws) <= w <==> 9 <= w && forall i | 0 <= i < |ws| :: ws[i] < Pow2(w)
    decreases |ws|
  {
    OnesIsPow2(w);
    if ws != [] {
      var n := |ws| - 1;
      BlockWidthLeast(ws[..n], w);
      LengthFits(ws[n], w);
      assert ws == ws[..n] + [ws[n]];
    }
  }

  function Fields(ws: seq<Word>, width: nat): seq<bool> {
    if ws == [] then [] else Fields(ws[..|ws| - 1], width) + Msb(ws[|ws| - 1], width)
  }

  /** One block: its width in `cb` bits, then its words. */
  function Block(ws: seq<Word>, width: nat, cb: nat): seq<bool>
    requires width >= MIN_WIDTH
  {
    Msb(width - MIN_WIDTH, cb) + Fields(ws, width)
  }

  function Min(a: nat, b: nat): nat { if a < b then a else b }

  /** All blocks of up to `bs` words. */
  function Blocks(ws: seq<Word>, bs: nat, cb: nat): seq<bool>
    requires bs >= 1
  {
    if ws == [] then [] else
      var k := Min(bs, |ws|);
      Block(ws[..k], BlockWidth(ws[..k]), cb) + Blocks(ws[k..], bs, cb)
  }

  lemma {:induction false} FieldsLength(ws: seq<Word>, width: nat)
    ensures |Fields(ws, width)| == |ws| * width
  {
    hide Msb;
    if ws != [] {
      var n := |ws| - 1;
      FieldsLength(ws[..n], width);
      assert (n + 1) * width == n * width + width;
    }
  }

  /** No word takes more than 32 bits and a width of its own. */
  lemma {:induction false} BlocksLength(ws: seq<Word>, bs: nat, cb: nat)
    requires bs >= 1
    ensures |Blocks(ws, bs, cb)| <= |ws| * (32 + cb)
  {
    hide BlockWidth, Fields, Msb;
    if ws != [] {
      var k := Min(bs, |ws|);
      var block, rest := ws[..k], ws[k..];
      var w := BlockWidth(block);
      BlockWidthBound(block);
      FieldsLength(block, w);
      BlocksLength(rest, bs, cb);
      BlockRoom(k, w, cb, |rest|);
    }
  }

  lemma BlockRoom(k: nat, w: nat, cb: nat, n: nat)
    requires k >= 1 && w <= 32
    ensures cb + k * w + n * (32 + cb) <= (k + n) * (32 + cb)
  {
    assert k * w <= k * 32;
    assert cb <= k * cb;
    assert (k + n) * (32 + cb) == k * 32 + k * cb + n * (32 + cb);
  }

  // ---------------------------------------------------------------- decoding

  /** Words read, and the position behind them. */
  datatype Reading = Reading(words: seq<Word>, next: nat)

  function ReadWords(s: seq<bool>, p: nat, n: nat, width: nat): (r: Reading)
    ensures |r.words| == n
    decreases n
  {
    if n == 0 then Reading([], p)
    else
      var tail := ReadWords(s, p + width, n - 1, width);
      Reading([AsWord(Number(s, p, width))] + tail.words, tail.next)
  }

  /** Only a corrupt width code yields values beyond 32 bits. */
  function AsWord(x: nat): Word { if x < WORD_LIMIT then x else 0 }

  function ReadBlock(s: seq<bool>, p: nat, n: nat, cb: nat): (r: Reading)
    ensures |r.words| == n
  {
    ReadWords(s, p + cb, n, MIN_WIDTH + Number(s, p, cb))
  }

  function ReadBlocks(s: seq<bool>, p: nat, n: nat, bs: nat, cb: nat): (ws: seq<Word>)
    requires bs >= 1
    ensures |ws| == n
    decreases n
  {
    if n == 0 then []
    else
      var k := Min(bs, n);
      var block := ReadBlock(s, p, k, cb);
      block.words + ReadBlocks(s, block.next, n - k, bs, cb)
  }

  lemma {:induction false} FieldsFront(ws: seq<Word>, width: nat)
    requires ws != []
    ensures Fields(ws, width) == Msb(ws[0], width) + Fields(ws[1..], width)
    decreases |ws|
  {
    hide Fields, Msb;
    var n := |ws| - 1;
    FieldsBack(ws, width);
    FieldsBack(ws[1..], width);
    if n > 0 {
      FieldsFront(ws[..n], width);
      assert ws[..n][1..] == ws[1..][..n - 1];
      assert ws[1..][n - 1] == ws[n];
    }
  }

  lemma {:induction false} FieldsBack(ws: seq<Word>, width: nat)
    ensures ws == [] ==> Fields(ws, width) == []
    ensures var n := |ws| - 1; n >= 0 ==> Fields(ws, width) == Fields(ws[..n], width) + Msb(ws[n], width)
    ensures |ws| == 1 ==> Fields(ws, width) == Msb(ws[0], width)
  {}

  lemma {:induction false} FieldsRoundTrip(s: seq<bool>, p: nat, ws: seq<Word>, width: nat)
    requires Holds(s, p, Fields(ws, width))
    requires forall i | 0 <= i < |ws| :: ws[i] <= Ones(width)
    ensures ReadWords(s, p, |ws|, width) == Reading(ws, p + |Fields(ws, width)|)
    decreases |ws|
  {
    FieldsBack(ws, width);
    hide Fields, Holds, Msb;
    if ws != [] {
      FieldsFront(ws, width);
      HoldsConcat(s, p, Msb(ws[0], width), Fields(ws[1..], width));
      NumberOfMsb(s, p, ws[0], width);
      FieldsRoundTrip(s, p + width, ws[1..], width);
    }
  }

  lemma {:induction false} BlockRoundTrip(s: seq<bool>, p: nat, block: seq<Word>, width: nat, cb: nat)
    requires MIN_WIDTH <= width && width - MIN_WIDTH <= Ones(cb) && Holds(s, p, Block(block, width, cb))
    requires forall i | 0 <= i < |block| :: block[i] <= Ones(width)
    ensures ReadBlock(s, p, |block|, cb) == Reading(block, p + |Block(block, width, cb)|)
  {
    HoldsConcat(s, p, Msb(width - MIN_WIDTH, cb), Fields(block, width));
    NumberOfMsb(s, p, width - MIN_WIDTH, cb);
    FieldsRoundTrip(s, p + cb, block, width);
  }

  /** A block is the width less nine in `cb` bits, and the words in that width, one after the other. */
  lemma {:induction false} BlockLayout(block: seq<Word>, width: nat, cb: nat, i: nat)
    requires MIN_WIDTH <= width && width - MIN_WIDTH <= Ones(cb) && i < |block| && block[i] <= Ones(width)
    ensures var s := Block(block, width, cb);
            && |s| == cb + |block| * width && Number(s, 0, cb) == width - 9
            && Number(s, cb + i * width, width) == block[i]
  {
    hide Fields, Msb, Ones, Number;
    var head, tail := Msb(width - MIN_WIDTH, cb), Fields(block, width);
    var s := head + tail;
    FieldsLength(block, width);
    assert Holds(s, 0, s);
    HoldsConcat(s, 0, head, tail);
    NumberOfMsb(s, 0, width - MIN_WIDTH, cb);
    FieldAt(s, cb, block, width, i);
    NumberOfMsb(s, cb + i * width, block[i], width);
  }

  lemma {:induction false} FieldAt(s: seq<bool>, p: nat, ws: seq<Word>, width: nat, i: nat)
    requires Holds(s, p, Fields(ws, width)) && i < |ws|
    ensures Holds(s, p + i * width, Msb(ws[i], width))
    decreases |ws|
  {
    hide Fields, Msb, Holds;
    var n := |ws| - 1;
    FieldsBack(ws, width);
    FieldsLength(ws[..n], width);
    HoldsConcat(s, p, Fields(ws[..n], width), Msb(ws[n], width));
    if i < n {
      FieldAt(s, p, ws[..n], width, i);
    }
  }

  /** The first block of a run of blocks is read back, and the rest of the run follows it. */
  lemma FirstBlock(s: seq<bool>, p: nat, ws: seq<Word>, bs: nat, cb: nat) returns (next: nat)
    requires bs >= 1 && 32 - MIN_WIDTH <= Ones(cb) && Holds(s, p, Blocks(ws, bs, cb)) && ws != []
    ensures ReadBlock(s, p, Min(bs, |ws|), cb) == Reading(ws[..Min(bs, |ws|)], next)
    ensures Holds(s, next, Blocks(ws[Min(bs, |ws|)..], bs, cb))
  {
    BlocksFront(ws, bs, cb);
    hide Blocks, Block, Holds, ReadBlock, BlockWidth, Ones;
    var k := Min(bs, |ws|);
    var front := ws[..k];
    var width := BlockWidth(front);
    BlockWidthBound(front);
    forall i | 0 <= i < k ensures front[i] <= Ones(width) { BlockWidthFits(front, i); }
    HoldsConcat(s, p, Block(front, width, cb), Blocks(ws[k..], bs, cb));
    BlockRoundTrip(s, p, front, width, cb);
    next := p + |Block(front, width, cb)|;
  }

  /** The blocks decode to the words wherever they stand, for every block size. */
  lemma {:induction false} BlocksRoundTrip(s: seq<bool>, p: nat, ws: seq<Word>, bs: nat, cb: nat)
    requires bs >= 1 && 32 - MIN_WIDTH <= Ones(cb) && Holds(s, p, Blocks(ws, bs, cb))
    ensures ReadBlocks(s, p, |ws|, bs, cb) == ws
    decreases |ws|
  {
    hide ReadBlock, Blocks, Holds;
    if ws != [] {
      var k := Min(bs, |ws|);
      var next := FirstBlock(s, p, ws, bs, cb);
      BlocksRoundTrip(s, next, ws[k..], bs, cb);
      ReadBlocksStep(s, p, |ws|, bs, cb, ws[..k], next);
    }
  }

  lemma ReadBlocksStep(s: seq<bool>, p: nat, n: nat, bs: nat, cb: nat, front: seq<Word>, next: nat)
    requires bs >= 1 && n > 0 && ReadBlock(s, p, Min(bs, n), cb) == Reading(front, next)
    ensures ReadBlocks(s, p, n, bs, cb) == front + ReadBlocks(s, next, n - Min(bs, n), bs, cb)
  {}

  /** Block `j` of the words. */
  function BlockOf(ws: seq<Word>, bs: nat, j: nat): seq<Word>
    requires bs >= 1 && bs * j <= |ws|
  {
    ws[bs * j..Min(bs * j + bs, |ws|)]
  }

  /** Block `j` stands at bit `at[j]`, and the next one right behind it. */
  ghost predicate BlockAt(bits: seq<bool>, ws: seq<Word>, bs: nat, cb: nat, at: seq<nat>, j: nat)
    requires bs >= 1
  {
    && bs * j < |ws| && j + 1 < |at|
    && var b := BlockOf(ws, bs, j); var code := Block(b, BlockWidth(b), cb);
       Holds(bits, at[j], code) && at[j + 1] == at[j] + |code|
  }

  /** `m` blocks of `bs` hold `n` words, and fewer do not. */
  predicate Enough(bs: nat, m: nat, n: nat) { n <= bs * m < n + bs }

  lemma EnoughMore(bs: nat, m: nat, n: nat)
    requires bs >= 1 && n > 0 && Enough(bs, m, n - Min(bs, n))
    ensures Enough(bs, m + 1, n)
  {
    assert bs * (m + 1) == bs * m + bs;
    OneBlockOrMore(bs, m);
  }

  lemma OneBlockOrMore(bs: nat, m: nat)
    ensures m > 0 ==> bs * m >= bs
  {}

  /** The words are cut into blocks of `bs`, the last one perhaps shorter, each in its own width. */
  lemma {:induction false} BlocksLayout(bits: seq<bool>, p: nat, ws: seq<Word>, bs: nat, cb: nat) returns (at: seq<nat>)
    requires bs >= 1 && Holds(bits, p, Blocks(ws, bs, cb))
    ensures at != [] && at[0] == p && Enough(bs, |at| - 1, |ws|)
    ensures forall j: nat | j + 1 < |at| :: BlockAt(bits, ws, bs, cb, at, j)
    decreases |ws|
  {
    BlocksFront(ws, bs, cb);
    at := [p];
    if ws != [] {
      hide Holds, Block, BlockWidth, Blocks, BlockAt, BlockOf, Enough;
      var k := Min(bs, |ws|);
      var rest, code := ws[k..], Block(ws[..k], BlockWidth(ws[..k]), cb);
      HoldsConcat(bits, p, code, Blocks(rest, bs, cb));
      var tail := BlocksLayout(bits, p + |code|, rest, bs, cb);
      at := [p] + tail;
      forall j: nat | j + 1 < |at| ensures BlockAt(bits, ws, bs, cb, at, j) {
        if j == 0 {
          FirstAt(bits, ws, bs, cb, at);
        } else {
          assert BlockAt(bits, rest, bs, cb, tail, j - 1);
          NextAt(bits, ws, bs, cb, at, tail, j);
        }
      }
      EnoughMore(bs, |tail| - 1, |ws|);
    }
  }

  lemma {:induction false} BlocksFront(ws: seq<Word>, bs: nat, cb: nat)
    requires bs >= 1
    ensures var k := Min(bs, |ws|);
            ws != [] ==> Blocks(ws, bs, cb) == Block(ws[..k], BlockWidth(ws[..k]), cb) + Blocks(ws[k..], bs, cb)
  {}

  lemma FirstAt(bits: seq<bool>, ws: seq<Word>, bs: nat, cb: nat, at: seq<nat>)
    requires bs >= 1 && ws != [] && |at| >= 2
    requires var b := ws[..Min(bs, |ws|)]; var code := Block(b, BlockWidth(b), cb);
             Holds(bits, at[0], code) && at[1] == at[0] + |code|
    ensures BlockAt(bits, ws, bs, cb, at, 0)
  {
    assert BlockOf(ws, bs, 0) == ws[..Min(bs, |ws|)];
  }

  lemma {:induction false} NextAt(bits: seq<bool>, ws: seq<Word>, bs: nat, cb: nat, at: seq<nat>, tail: seq<nat>,
                                  j: nat)
    requires bs >= 1 && ws != [] && j > 0 && j + 1 < |at| && at[1..] == tail
    requires BlockAt(bits, ws[Min(bs, |ws|)..], bs, cb, tail, j - 1)
    ensures BlockAt(bits, ws, bs, cb, at, j)
  {
    hide Holds, Block, BlockWidth, BlockOf;
    BlockShift(ws, bs, Min(bs, |ws|), j);
    assert at[j] == tail[j - 1] && at[j + 1] == tail[j];
  }

  lemma BlockShift(ws: seq<Word>, bs: nat, k: nat, j: nat)
    requires bs >= 1 && ws != [] && k == Min(bs, |ws|) && j > 0 && bs * (j - 1) < |ws[k..]|
    ensures bs * j < |ws| && BlockOf(ws, bs, j) == BlockOf(ws[k..], bs, j - 1)
  {
    var a, b := bs * j, bs * (j - 1);
    assert a == b + bs && b >= 0;
    assert k == bs;
    assert ws[a..Min(a + bs, |ws|)] == ws[k..][b..Min(b + bs, |ws| - k)];
  }

  // ---------------------------------------------------------------- the encoder

  /** Append a field to the written part of the stream. */
  method PutField(value: Word, n: nat, dest: array<Word>, base: nat, outbits: nat, ghost written: seq<bool>)
    requires 1 <= n <= 32 && |written| == 32 * base + outbits && |written| + n <= 32 * dest.Length
    requires written <= Stream(dest[..])
    modifies dest
    ensures written + Msb(value, n) <= Stream(dest[..])
  {
    var r := PutNBits32(value, outbits, n, dest, base);
  }

  /** `block` is what the block loops run over when they start at `from`. */
  ghost predicate IsBlock(source: array<Word>, words: nat, from: nat, bs: nat, block: seq<Word>)
    reads source
  {
    from <= words <= source.Length && |block| == Min(bs, words - from) && block == source[from..from + |block|]
  }

  lemma {:induction false} WidthStep(block: seq<Word>, k: nat)
    requires k < |block|
    ensures BlockWidth(block[..k + 1]) == Max(BlockWidth(block[..k]), Length(block[k]))
  {
    assert block[..k + 1][..k] == block[..k];
  }

  /** The block loop that determines the width. */
  method MeasureBlock(source: array<Word>, words: nat, ctr: nat, bs: nat, ghost block: seq<Word>) returns (width: nat)
    requires IsBlock(source, words, ctr, bs, block)
    ensures width == BlockWidth(block)
  {
    var bctr := ctr;
    width := 0;
    assert block[..0] == [];
    while bctr < ctr + bs && bctr < words
      invariant ctr <= bctr <= ctr + |block|
      invariant Max(MIN_WIDTH, width) == BlockWidth(block[..bctr - ctr])
    {
      hide BlockWidth;
      var bits := BitsUsed(source[bctr]);
      WidthStep(block, bctr - ctr);
      assert block[bctr - ctr] == source[bctr];
      width := if bits > width then bits else width;
      bctr := bctr + 1;
    }
    assert block[..bctr - ctr] == block;
    if width < MIN_WIDTH {
      width := MIN_WIDTH;
    }
  }

  /** The block loop that writes the words. */
  method PutWords(source: array<Word>, words: nat, from: nat, bs: nat, width: nat, dest: array<Word>, base: nat,
                  outbits: nat, ghost block: seq<Word>, ghost written: seq<bool>)
    returns (ctr: nat, bits: nat)
    requires IsBlock(source, words, from, bs, block) && source != dest && 1 <= width <= 32
    requires |written| == 32 * base + outbits && written <= Stream(dest[..])
    requires |written + Fields(block, width)| <= 32 * dest.Length
    modifies dest
    ensures ctr == from + |block|
    ensures written + Fields(block, width) <= Stream(dest[..])
    ensures |written + Fields(block, width)| == 32 * base + bits
  {
    hide Msb, Stream;
    ctr, bits := from, outbits;
    ghost var all := written;
    while ctr < from + bs && ctr < words
      invariant from <= ctr <= from + |block|
      invariant all == written + Fields(block[..ctr - from], width)
      invariant all <= Stream(dest[..]) && |all| == 32 * base + bits
    {
      ghost var k := ctr - from;
      FieldsStep(block, k, width);
      Regroup(written, Fields(block[..k], width), Msb(block[k], width));
      PutField(source[ctr], width, dest, base, bits, all);
      all := all + Msb(block[k], width);
      bits := bits + width;
      ctr := ctr + 1;
    }
    assert block[..ctr - from] == block;
  }

  lemma {:induction false} FieldsStep(block: seq<Word>, k: nat, width: nat)
    requires k < |block|
    ensures Fields(block[..k + 1], width) == Fields(block[..k], width) + Msb(block[k], width)
    ensures |Fields(block[..k + 1], width)| <= |Fields(block, width)|
    decreases |block| - k
  {
    assert block[..k + 1][..k] == block[..k];
    if k + 1 < |block| { FieldsStep(block, k + 1, width); } else { assert block[..k + 1] == block; }
  }

  /** The width code and the words of a block. */
  method PutBlock(source: array<Word>, words: nat, from: nat, bs: nat, dest: array<Word>, base: nat,
                  outbits: nat, ghost block: seq<Word>, ghost written: seq<bool>, ghost bits: seq<bool>, ghost cb: nat)
    returns (ctr: nat, outbits': nat)
    requires IsBlock(source, words, from, bs, block) && source != dest && BlockWidth(block) <= 32
    requires cb == CODE_BITS && bits == Block(block, BlockWidth(block), cb)
    requires |written| == 32 * base + outbits && written <= Stream(dest[..])
    requires |written + bits| <= 32 * dest.Length
    modifies dest
    ensures ctr == from + |block|
    ensures written + bits <= Stream(dest[..]) && |written + bits| == 32 * base + outbits'
  {
    hide Stream, Msb, Fields, BlockWidth;
    var width := MeasureBlock(source, words, from, bs, block);
    ghost var header, fields := Msb(width - MIN_WIDTH, cb), Fields(block, width);
    Regroup(written, header, fields);
    PutField(width - MIN_WIDTH, CODE_BITS, dest, base, outbits, written);
    ctr, outbits' := PutWords(source, words, from, bs, width, dest, base, outbits + CODE_BITS, block, written + header);
  }

  /** One turn of the main loop: what is written grows by the first block of what is due. */
  method NextBlock(source: array<Word>, words: nat, from: nat, bs: nat, dest: array<Word>, base: nat, outbits: nat,
                   ghost tail: seq<Word>, ghost written: seq<bool>, ghost goal: seq<bool>, ghost cb: nat)
    returns (ctr: nat, outbits': nat, ghost tail': seq<Word>, ghost written': seq<bool>)
    requires bs >= 1 && from < words <= source.Length && source != dest && tail == source[from..words]
    requires |written| == 32 * base + outbits && written <= Stream(dest[..]) && |goal| <= 32 * dest.Length
    requires cb == CODE_BITS && written + Blocks(tail, bs, cb) == goal
    modifies dest
    ensures from < ctr <= words && tail' == source[ctr..words]
    ensures written' <= Stream(dest[..]) && |written'| == 32 * base + outbits'
    ensures written' + Blocks(tail', bs, cb) == goal
  {
    hide Blocks, Block, Stream;
    ghost var block, bits := FirstOf(tail, bs, cb, written);
    tail' := tail[|block|..];
    written' := written + bits;
    assert block == source[from..from + |block|];
    ctr, outbits' := PutBlock(source, words, from, bs, dest, base, outbits, block, written, bits, cb);
  }

  lemma FirstOf(ws: seq<Word>, bs: nat, cb: nat, written: seq<bool>) returns (block: seq<Word>, bits: seq<bool>)
    requires bs >= 1 && ws != []
    ensures |block| == Min(bs, |ws|) && block == ws[..|block|] && BlockWidth(block) <= 32
    ensures bits == Block(block, BlockWidth(block), cb)
    ensures written + Blocks(ws, bs, cb) == written + bits + Blocks(ws[|block|..], bs, cb)
  {
    block := ws[..Min(bs, |ws|)];
    BlockWidthBound(block);
    bits := Block(block, BlockWidth(block), cb);
    Regroup(written, bits, Blocks(ws[|block|..], bs, cb));
  }

  /** vbwl_midsize. */
  method VbwlMidsize(source: array<Word>, words: Word, dest: array<Word>, base: nat, bs: nat) returns (size: nat)
    requires bs >= 1 && words <= source.Length && source != dest
    requires 32 * base + 32 + |Blocks(source[..words], bs, CODE_BITS)| <= 32 * dest.Length
    modifies dest
    ensures dest[..base] == old(dest[..base]) && dest[base] == words
    ensures Holds(Stream(dest[..]), 32 * base + 32, Blocks(source[..words], bs, CODE_BITS))
    ensures size == (32 + |Blocks(source[..words], bs, CODE_BITS)| + 31) / 32
  {
    ghost var was, data := dest[..], source[..words];
    ghost var head, blocks := Stream(was)[..32 * base + 32], Blocks(data, bs, CODE_BITS);
    var outbits := PutAllBlocks(source, words, dest, base, bs, data, head, head + blocks, CODE_BITS);
    ghost var coded := dest[..];
    FinishBlocks(was, coded, base, blocks, words);
    dest[base] := words;
    assert dest[..] == coded[base := words];
    return (outbits + 31) / 32;
  }

  /** The main loop. */
  method PutAllBlocks(source: array<Word>, words: nat, dest: array<Word>, base: nat, bs: nat,
                      ghost data: seq<Word>, ghost head: seq<bool>, ghost goal: seq<bool>, ghost cb: nat)
    returns (outbits: nat)
    requires bs >= 1 && words <= source.Length && source != dest && cb == CODE_BITS
    requires data == source[..words] && goal == head + Blocks(data, bs, cb)
    requires |head| == 32 * base + 32 && head <= Stream(dest[..]) && |goal| <= 32 * dest.Length
    modifies dest
    ensures goal <= Stream(dest[..]) && |goal| == 32 * base + outbits
  {
    outbits := 32;
    ghost var written, tail := head, data;
    var ctr := 0;
    while ctr < words
      invariant ctr <= words && tail == source[ctr..words]
      invariant written <= Stream(dest[..]) && |written| == 32 * base + outbits
      invariant written + Blocks(tail, bs, cb) == goal
    {
      ctr, outbits, tail, written := NextBlock(source, words, ctr, bs, dest, base, outbits, tail, written, goal, cb);
      ctr := ctr - 1;
      ctr := ctr + 1;
    }
  }

  /** Storing the word count disturbs neither the blocks nor anything before them. */
  lemma FinishBlocks(was: seq<Word>, coded: seq<Word>, base: nat, blocks: seq<bool>, words: Word)
    requires |coded| == |was| && base < |coded| && 32 * base + 32 + |blocks| <= 32 * |coded|
    requires Stream(was)[..32 * base + 32] + blocks <= Stream(coded)
    ensures coded[base := words][..base] == was[..base]
    ensures Holds(Stream(coded[base := words]), 32 * base + 32, blocks)
  {
    var head := Stream(was)[..32 * base + 32];
    assert Stream(coded)[..32 * base] == head[..32 * base] == Stream(was)[..32 * base];
    StreamDetermines(coded, was, base);
    forall i | 0 <= i < |blocks| ensures Stream(coded[base := words])[32 * base + 32 + i] == blocks[i] {
      assert (head + blocks)[32 * base + 32 + i] == blocks[i];
      assert (32 * base + 32 + i) / 32 > base;
    }
  }
}
