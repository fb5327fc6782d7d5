/**
 The imperative encoder of init/demo_net.c (one CPU's slot of the fm_ari_* variables): symbol and
 flush steps that write bits through PutBit32, and the chunk loop around them. Each step is tied to
 the code functions by what it still owes the stream.
 */
module ChunkEncoder {
  import opened Words
  import opened BitStream
  import opened AriModel
  import opened ArithmeticCoder

  /** What is written, followed by `s` with `u` underflows pending, makes up `goal`. */
  ghost predicate Owes(written: seq<bool>, u: nat, s: seq<bool>, goal: seq<bool>)
    requires s != []
  {
    written + Pending(u, s) == goal
  }

  class Encoder {
    var low: Word
    var high: Word
    var underflow: nat
    var wctr: nat
    ghost var written: seq<bool>  // the bits of the buffer up to the write position

    constructor ()
      ensures low == 0 && high == 0 && underflow == 0 && wctr == 0
    {
      low, high, underflow, wctr := 0, 0, 0, 0;
      written := [];
    }

    ghost function R(): Range
      reads this
    {
      Range(low, high)
    }

    /** The write position and the ghost record agree with the buffer. */
    ghost predicate Synced(dest: array<Word>, base: nat)
      reads this`wctr, this`written, dest
    {
      |written| == 32 * base + wctr && written <= Stream(dest[..])
    }

    /** `PutBit32(value, wctr++, dest)`. */
    method Put(value: Word, dest: array<Word>, base: nat)
      requires Synced(dest, base) && |written| < 32 * dest.Length
      modifies this`wctr, this`written, dest
      ensures Synced(dest, base) && written == old(written) + [value == 1]
    {
      PutBit32(value, wctr, dest, base);
      wctr := wctr + 1;
      written := written + [value == 1];
    }

    /** The bit opposite to the top bit of the interval. */
    method Opposite() returns (b: Word)
      requires high <= 0xffff
      ensures b == if high < 0x8000 then 1 else 0
    {
      Bit15(high);
      return Shr(And(Not32(high), 0x8000), 15);
    }

    /** The pending underflow bits, all opposite to the bit just written. */
    method PutUnderflow(dest: array<Word>, base: nat)
      requires high <= 0xffff
      requires Synced(dest, base) && |written| + underflow <= 32 * dest.Length
      modifies this`wctr, this`underflow, this`written, dest
      ensures Synced(dest, base) && underflow == 0
      ensures written == old(written) + Repeat(high < 0x8000, old(underflow))
    {
      hide Stream, Synced;
      ghost var n := 0;
      var opposite := Opposite();
      while underflow > 0
        invariant underflow + n == old(underflow) && Synced(dest, base)
        invariant written == old(written) + Repeat(high < 0x8000, n)
      {
        Put(opposite, dest, base);
        underflow := underflow - 1;
        n := n + 1;
      }
    }

    /** The common top bit and the pending underflow bits. */
    method PutTop(top: Word, dest: array<Word>, base: nat)
      requires high <= 0xffff && top == (if high >= 0x8000 then 1 else 0)
      requires Synced(dest, base) && |written| + underflow < 32 * dest.Length
      modifies this`wctr, this`underflow, this`written, dest
      ensures Synced(dest, base) && underflow == 0
      ensures written == old(written) + [high >= 0x8000] + Repeat(high < 0x8000, old(underflow))
    {
      Put(top, dest, base);
      PutUnderflow(dest, base);
    }

    /** Start of a chunk: 32 bits are left for its length word. */
    method Reset(dest: array<Word>, base: nat)
      requires base < dest.Length
      modifies this
      ensures R() == FULL && underflow == 0
      ensures Synced(dest, base) && written == Stream(dest[..])[..32 * base + 32]
    {
      low := 0;
      high := 0xffff;
      underflow := 0;
      wctr := 32;
      written := Stream(dest[..])[..32 * base + 32];
    }

    /** `(high & 0x8000) == (low & 0x8000)`, and that bit. */
    method TopBits() returns (same: bool, top: Word)
      requires low <= 0xffff && high <= 0xffff
      ensures same == ((low >= 0x8000) == (high >= 0x8000))
      ensures top == if high >= 0x8000 then 1 else 0
    {
      Bit15(high);
      Bit15(low);
      var a := And(high, 0x8000);
      same, top := a == And(low, 0x8000), Shr(a, 15);
    }

    /** `(low & 0x4000) && !(high & 0x4000)`. */
    method SecondBits() returns (apart: bool)
      requires low <= 0xffff && high <= 0xffff
      ensures low < 0x8000 <= high ==> apart == (0x4000 <= low && high < 0xc000)
    {
      Bit14(high);
      Bit14(low);
      apart := And(low, 0x4000) != 0 && And(high, 0x4000) == 0;
    }

    /** The bit flushed first and the one repeated after it. */
    method FlushBits() returns (first: Word, opposite: Word)
      requires low < 0x8000
      ensures first == (if low >= 0x4000 then 1 else 0) && opposite == 1 - first
    {
      Bit14(low);
      first, opposite := Shr(And(low, 0x4000), 14), Shr(And(Not32(low), 0x4000), 14);
    }

    /** Count an underflow and drop the second bit of both ends. */
    method NoteUnderflow()
      requires R().Straddles()
      modifies this`underflow, this`low, this`high
      ensures underflow == old(underflow) + 1
      ensures low == old(low) - 0x4000 && high == old(high) + 0x4000
    {
      underflow := underflow + 1;
      LowMasks(low);
      SetBit14(high);
      low := And(low, 0x3fff);
      high := Or(high, 0x4000);
    }

    /** The shift at the foot of the renormalisation loop. */
    method ShiftEnds()
      requires low <= 0xffff && high <= 0xffff
      modifies this`low, this`high
      ensures low == 2 * old(low) % 0x10000
      ensures high == (2 * old(high) + 1) % 0x10000
    {
      Shift16(low);
      Shift16(high);
      low := Shl32(low, 1);
      low := And(low, 0xffff);
      high := Shl32(high, 1);
      OrWord(high, 1);
      high := Or(high, 1);
      high := And(high, 0xffff);
    }

    /** fmari_encodeSym8k for symbol `s` of `model`, with `rest` still to come. */
    method EncodeSym8k(dest: array<Word>, base: nat, cp: nat, ncp: nat,
                       ghost model: seq<nat>, ghost s: Symbol, ghost rest: seq<Symbol>, ghost goal: seq<bool>)
      requires ValidTotals(model) && cp == model[s] && ncp == model[s + 1] && R().Normal()
      requires Synced(dest, base) && |goal| <= 32 * dest.Length
      requires Owes(written, underflow, Code(model, R(), [s] + rest), goal)
      modifies this, dest
      ensures R() == Settle(Narrow(model, old(R()), s))
      ensures Synced(dest, base) && old(written) <= written
      ensures Owes(written, underflow, Code(model, R(), rest), goal)
    {
      var width := high - low + 1;
      ghost var narrow := Narrow(model, R(), s);
      assert ([s] + rest)[1..] == rest;
      high := low + ncp * width / MAXFREQ - 1;
      low := low + cp * width / MAXFREQ;
      assert R() == narrow;
      while true
        invariant R().Valid() && Settle(R()) == Settle(narrow)
        invariant Synced(dest, base) && old(written) <= written
        invariant Owes(written, underflow, Emit(model, R(), rest), goal)
        decreases 0x10000 - R().Width()
      {
        var proceed := Renormalise(dest, base, model, rest, goal);
        if !proceed { return; }
      }
    }

    /** One turn of the renormalisation loop; it leaves the loop exactly in a normal state. */
    method Renormalise(dest: array<Word>, base: nat, ghost model: seq<nat>, ghost rest: seq<Symbol>,
                       ghost goal: seq<bool>) returns (proceed: bool)
      requires ValidTotals(model) && R().Valid()
      requires Synced(dest, base) && |goal| <= 32 * dest.Length
      requires Owes(written, underflow, Emit(model, R(), rest), goal)
      modifies this, dest
      ensures proceed == !old(R()).Normal()
      ensures R() == if proceed then Zoom(old(R())) else old(R())
      ensures Synced(dest, base) && old(written) <= written
      ensures Owes(written, underflow, Emit(model, R(), rest), goal)
    {
      hide Synced, Stream, Emit, Owes, Repeat;
      var same, top := TopBits();
      var second := SecondBits();
      if same {
        OwedAtTop(model, R(), rest, underflow, written, goal);
        PutTop(top, dest, base);
      } else if second {
        OwedAcross(model, R(), rest, underflow, written, goal);
        NoteUnderflow();
      } else {
        return false;
      }
      ShiftEnds();
      return true;
    }

    /** fmari_flushEncoder: everything owed is written. */
    method FlushEncoder(dest: array<Word>, base: nat, ghost model: seq<nat>, ghost goal: seq<bool>)
      requires ValidTotals(model) && R().Normal()
      requires Synced(dest, base) && |goal| <= 32 * dest.Length
      requires Owes(written, underflow, Code(model, R(), []), goal)
      modifies this`wctr, this`underflow, this`written, dest
      ensures Synced(dest, base) && written == goal
    {
      hide Stream;
      var first, opposite := FlushBits();
      ghost var b, u := low >= 0x4000, underflow;
      FlushOwed(R(), u, written, goal);
      Put(first, dest, base);
      underflow := underflow + 1;
      ghost var n := 0;
      while true
        invariant n <= u + 1 && underflow == u + 1 - n && Synced(dest, base)
        invariant written == old(written) + [b] + Repeat(!b, n)
        decreases underflow
      {
        var more := underflow > 0;
        underflow := if more then underflow - 1 else 0xFFFF_FFFF;
        if !more { break; }
        Put(opposite, dest, base);
        n := n + 1;
      }
    }
  }

  lemma Shift16(x: Word)
    requires x <= 0xffff
    ensures Shl32(x, 1) == 2 * x
    ensures And(2 * x, 0xffff) == 2 * x % 0x10000
    ensures Or(2 * x, 1) == 2 * x + 1
    ensures And(2 * x + 1, 0xffff) == (2 * x + 1) % 0x10000
  {
    hide And, Or;
    assert Shl(x, 1) == 2 * Shl(x, 0);
    LowMasks(2 * x);
    LowMasks(2 * x + 1);
    assert Pow2(0) == 1;
    OrBit(2 * x, 0);
  }

  /** When the top bits agree, the bit and its opposites come out and the rest is owed unpended. */
  lemma OwedAtTop(model: seq<nat>, r: Range, rest: seq<Symbol>, u: nat, written: seq<bool>, goal: seq<bool>)
    requires ValidTotals(model) && r.Valid() && !r.Normal() && !r.Straddles()
    requires Owes(written, u, Emit(model, r, rest), goal)
    ensures var b := 0x8000 <= r.hi;
            Owes(written + [b] + Repeat(!b, u), 0, Emit(model, Zoom(r), rest), goal)
    ensures |goal| > |written| + u
  {
    hide Emit, Zoom;
    var b, s := 0x8000 <= r.lo, Emit(model, Zoom(r), rest);
    EmitTop(model, r, rest);
    PendingFront(b, s, u);
    assert written + ([b] + Repeat(!b, u) + s) == (written + [b] + Repeat(!b, u)) + s;
  }

  lemma {:induction false} EmitTop(model: seq<nat>, r: Range, rest: seq<Symbol>)
    requires ValidTotals(model) && r.Valid() && !r.Normal() && !r.Straddles()
    ensures Emit(model, r, rest) == [0x8000 <= r.lo] + Emit(model, Zoom(r), rest)
    ensures 0x8000 <= r.lo <==> 0x8000 <= r.hi
  {}

  lemma {:induction false} PendingFront(b: bool, s: seq<bool>, u: nat)
    requires s != []
    ensures Pending(u, [b] + s) == [b] + Repeat(!b, u) + s && Pending(0, s) == s
  {
    assert ([b] + s)[1..] == s;
  }

  /** An underflow step leaves the debt as it is, with one more bit pending. */
  lemma OwedAcross(model: seq<nat>, r: Range, rest: seq<Symbol>, u: nat, written: seq<bool>, goal: seq<bool>)
    requires ValidTotals(model) && r.Straddles() && Owes(written, u, Emit(model, r, rest), goal)
    ensures Owes(written, u + 1, Emit(model, Zoom(r), rest), goal)
  {
    PendingStep(u, Emit(model, Zoom(r), rest));
  }

  lemma FlushOwed(r: Range, u: nat, prefix: seq<bool>, goal: seq<bool>)
    requires r.Normal() && prefix + Pending(u, Flush(r)) == goal
    ensures var b := r.lo >= 0x4000; goal == prefix + [b] + Repeat(!b, u + 1)
    ensures |goal| == |prefix| + u + 2
  {
    var b := r.lo >= 0x4000;
    assert Flush(r)[1..] == [!b];
  }

  // ---------------------------------------------------------------- chunks

  /** The words of a chunk that leave the coder through the spill buffer. */
  function Spill(ws: seq<Word>): seq<Word> {
    if ws == [] then []
    else
      var n := |ws| - 1;
      Spill(ws[..n]) + (if ws[n] < ROWS then [] else [ws[n]])
  }

  /** Size in words of a coded chunk: its length word and the code, rounded up. */
  function ChunkWords(cp: seq<nat>, syms: seq<Symbol>): (n: nat)
    requires ValidTotals(cp)
    ensures n >= 1
  {
    1 + (|Code(cp, FULL, syms)| + 31) / 32
  }

  /** One word for the size, and as few for the code as hold it. */
  lemma ChunkWordsLeast(cp: seq<nat>, syms: seq<Symbol>)
    requires ValidTotals(cp)
    ensures var n, bits := ChunkWords(cp, syms), |Code(cp, FULL, syms)|;
            n >= 2 && 32 * (n - 2) < bits <= 32 * (n - 1)
  {
    hide Code;
  }

  /** `ws` is a coded chunk: its own length, then the code; the last bits are arbitrary. */
  ghost predicate IsChunk(ws: seq<Word>, cp: seq<nat>, syms: seq<Symbol>)
    requires ValidTotals(cp)
  {
    && |ws| == ChunkWords(cp, syms) && ws[0] == |ws|
    && Code(cp, FULL, syms) <= Stream(ws[1..])
  }

  /** Read a chunk: the stream may run on behind it. */
  function DecodeChunk(cp: seq<nat>, ws: seq<Word>, n: nat): (s: seq<Symbol>)
    requires ValidTotals(cp)
    ensures |s| == n
  {
    Decode(cp, Start(if ws == [] then [] else Stream(ws[1..])), n)
  }

  /** A coded chunk decodes to its symbols whatever words follow it. */
  lemma ChunkDecodes(cp: seq<nat>, ws: seq<Word>, syms: seq<Symbol>, after: seq<Word>, all: seq<Word>)
    requires ValidTotals(cp) && IsChunk(ws, cp, syms) && all == ws + after
    ensures DecodeChunk(cp, all, |syms|) == syms
  {
    var code, body := Code(cp, FULL, syms), all[1..];
    assert body[..|ws| - 1] == ws[1..];
    StreamSplit(body, |ws| - 1);
    var bits := Stream(body);
    assert code <= bits[..32 * (|ws| - 1)];
    assert bits == code + bits[|code|..];
    DecodeUndoesCode(cp, syms, bits[|code|..]);
  }

  /** struct arimodel, with the regions of the swap buffer as separate arrays; ncptable is cptable + 1. */
  class Model {
    const freqtable: array<nat>
    const cptable: array<nat>
    const spillover: array<Word>
    var spillctr: nat

    constructor (freqtable: array<nat>, cptable: array<nat>, spillover: array<Word>)
      requires freqtable != cptable && freqtable.Length == SPILL && cptable.Length == SPILL + 1
      ensures this.freqtable == freqtable && this.cptable == cptable && this.spillover == spillover
      ensures spillctr == 0 && Valid()
    {
      this.freqtable, this.cptable, this.spillover, spillctr := freqtable, cptable, spillover, 0;
    }

    ghost predicate Valid()
      reads this
    {
      && freqtable.Length == SPILL && cptable.Length == SPILL + 1 && freqtable != cptable
      && spillctr <= spillover.Length
    }

    ghost function Spilled(): seq<Word>
      requires Valid()
      reads this, spillover
    {
      spillover[..spillctr]
    }
  }

  /** One iteration of the chunk loop: code a word, or the escape symbol and spill it. */
  method EncodeWord(enc: Encoder, word: Word, dest: array<Word>, base: nat, m: Model,
                    ghost rest: seq<Symbol>, ghost goal: seq<bool>)
    requires m.Valid() && ValidTotals(m.cptable[..])
    requires dest != m.spillover && enc.R().Normal()
    requires word >= ROWS ==> m.spillctr < m.spillover.Length
    requires enc.Synced(dest, base) && |goal| <= 32 * dest.Length
    requires Owes(enc.written, enc.underflow, Code(m.cptable[..], enc.R(), [SymbolOf(word)] + rest), goal)
    modifies enc, dest, m, m.spillover
    ensures m.Valid() && enc.R().Normal()
    ensures m.Spilled() == old(m.Spilled()) + Spill([word])
    ensures enc.Synced(dest, base) && old(enc.written) <= enc.written
    ensures Owes(enc.written, enc.underflow, Code(m.cptable[..], enc.R(), rest), goal)
  {
    ghost var cps := m.cptable[..];
    if word >= ROWS {
      enc.EncodeSym8k(dest, base, m.cptable[ROWS], m.cptable[ROWS + 1], cps, ROWS, rest, goal);
      m.spillover[m.spillctr] := word;
      m.spillctr := m.spillctr + 1;
    } else {
      enc.EncodeSym8k(dest, base, m.cptable[word], m.cptable[word + 1], cps, word, rest, goal);
    }
    assert Spill([word]) == if word < ROWS then [] else [word];
  }

  /** The symbol loop of fmari_encode_chunk. */
  method EncodeWords(enc: Encoder, chunk: array<Word>, start: nat, chunksize: nat,
                     dest: array<Word>, base: nat, m: Model, ghost data: seq<Word>, ghost goal: seq<bool>)
    requires m.Valid() && ValidTotals(m.cptable[..]) && enc.R().Normal()
    requires start + chunksize <= chunk.Length && data == chunk[start..start + chunksize]
    requires dest != m.spillover && dest != chunk && chunk != m.spillover
    requires |m.Spilled()| + |Spill(data)| <= m.spillover.Length
    requires enc.Synced(dest, base) && |goal| <= 32 * dest.Length
    requires Owes(enc.written, enc.underflow, Code(m.cptable[..], enc.R(), Symbols(data)), goal)
    modifies enc, dest, m, m.spillover
    ensures m.Valid() && m.Spilled() == old(m.Spilled()) + Spill(data) && enc.R().Normal()
    ensures enc.Synced(dest, base) && old(enc.written) <= enc.written
    ensures Owes(enc.written, enc.underflow, Code(m.cptable[..], enc.R(), []), goal)
  {
    hide Code, Owes, Stream;
    ghost var cp, syms := m.cptable[..], Symbols(data);
    var ctr := 0;
    assert syms[0..] == syms;
    assert data[..0] == [];
    assert Spill(data[..0]) == [];
    hide Encoder.Synced, Spill, Symbols;
    while ctr < chunksize
      invariant ctr <= chunksize && m.Valid() && enc.R().Normal()
      invariant m.Spilled() == old(m.Spilled()) + Spill(data[..ctr])
      invariant enc.Synced(dest, base) && old(enc.written) <= enc.written
      invariant Owes(enc.written, enc.underflow, Code(cp, enc.R(), syms[ctr..]), goal)
    {
      assert syms[ctr..] == [SymbolOf(data[ctr])] + syms[ctr + 1..];
      SpillStep(data, ctr);
      EncodeWord(enc, chunk[start + ctr], dest, base, m, syms[ctr + 1..], goal);
      ctr := ctr + 1;
    }
    assert syms[ctr..] == [] && data[..ctr] == data;
    assert data[..chunksize] == data;
  }

  /** fmari_encode_chunk. */
  method EncodeChunk(enc: Encoder, chunk: array<Word>, start: nat, chunksize: nat,
                     dest: array<Word>, base: nat, m: Model) returns (words: Word)
    requires m.Valid() && ValidTotals(m.cptable[..])
    requires start + chunksize <= chunk.Length && dest.Length < WORD_LIMIT
    requires dest != m.spillover && dest != chunk && chunk != m.spillover
    requires base + ChunkWords(m.cptable[..], Symbols(chunk[start..start + chunksize])) <= dest.Length
    requires |m.Spilled()| + |Spill(chunk[start..start + chunksize])| <= m.spillover.Length
    modifies enc, dest, m, m.spillover
    ensures m.Valid() && m.Spilled() == old(m.Spilled()) + Spill(chunk[start..start + chunksize])
    ensures base + words <= dest.Length && dest[..base] == old(dest[..base])
    ensures IsChunk(dest[base..base + words], m.cptable[..], Symbols(chunk[start..start + chunksize]))
  {
    hide Stream, IsChunk, Spill, Code;
    ghost var cp, data := m.cptable[..], chunk[start..start + chunksize];
    ghost var code := Code(cp, FULL, Symbols(data));
    ghost var was := dest[..];
    enc.Reset(dest, base);
    ghost var goal := enc.written + code;
    assert Pending(0, code) == code;
    EncodeWords(enc, chunk, start, chunksize, dest, base, m, data, goal);
    enc.FlushEncoder(dest, base, cp, goal);
    var tail := (32 - enc.wctr % 32) % 32;
    enc.wctr := enc.wctr + tail;
    words := enc.wctr / 32;
    ghost var coded := dest[..];
    FinishChunk(was, coded, base, cp, Symbols(data), words);
    dest[base] := words;
    assert dest[..] == coded[base := words];
  }

  lemma {:induction false} SpillStep(data: seq<Word>, ctr: nat)
    requires ctr < |data|
    ensures Spill(data[..ctr + 1]) == Spill(data[..ctr]) + Spill([data[ctr]])
    ensures |Spill(data[..ctr + 1])| <= |Spill(data)|
    decreases |data| - ctr
  {
    assert data[..ctr + 1][..ctr] == data[..ctr];
    assert Spill([data[ctr]]) == if data[ctr] < ROWS then [] else [data[ctr]];
    if ctr + 1 < |data| {
      SpillStep(data, ctr + 1);
    } else {
      assert data[..ctr + 1] == data;
    }
  }

  /** Storing the length word completes the chunk and touches nothing before it. */
  lemma FinishChunk(was: seq<Word>, coded: seq<Word>, base: nat, cp: seq<nat>, syms: seq<Symbol>, words: Word)
    requires ValidTotals(cp) && |coded| == |was| && words == ChunkWords(cp, syms)
    requires base + words <= |coded| < WORD_LIMIT
    requires Stream(was)[..32 * base + 32] + Code(cp, FULL, syms) <= Stream(coded)
    ensures coded[base := words][..base] == was[..base]
    ensures IsChunk(coded[base := words][base..base + words], cp, syms)
  {
    var head := Stream(was)[..32 * base + 32];
    var code := Code(cp, FULL, syms);
    var body := coded[base + 1..base + words];
    assert Stream(coded)[..32 * base] == head[..32 * base] == Stream(was)[..32 * base];
    StreamDetermines(coded, was, base);
    assert body == coded[base + 1..][..words - 1];
    StreamSplit(coded, base + 1);
    StreamSplit(coded[base + 1..], words - 1);
    forall i | 0 <= i < |code| ensures Stream(body)[i] == code[i] {
      assert (head + code)[32 * base + 32 + i] == code[i];
    }
    assert coded[base := words][base..base + words][1..] == body;
  }
}
