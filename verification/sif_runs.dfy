/** Sequences of pin-change interrupts. `Run` feeds edges one after another
    through `SifProtocol.Step`; the lemmas here state what the decoder does
    over many calls: `bitIndex` never leaves [-1, 95], consecutive accepted
    frames always carry different checksums, a frame encoded as interval
    widths is decoded back exactly, and a frame repeated verbatim is
    published once. */
module SifRuns {
  import opened Bits
  import opened SifProtocol

  /** An edge on which no call can divide by zero: a rising edge (never
      divided), or a falling edge after a positive interval. */
  type TimedEdge = e: Edge | e.level == High || e.duration > 0 witness Edge(High, 0)

  /** The final state, and the checksums of the accepted frames in the order
      they were accepted. */
  datatype RunResult = RunResult(state: DecoderState, accepted: seq<bv8>)

  /** One call as a total function of the state (`Valid` states are the
      only ones that arise). */
  function Next(clearOnSync: bool): (DecoderState, TimedEdge) -> StepResult
  {
    (s: DecoderState, e: TimedEdge) => if s.Valid() then Step(s, e, clearOnSync) else StepResult(s, false)
  }

  /** Feed the edges one after another through `next`. */
  function Fold(next: (DecoderState, TimedEdge) -> StepResult, s: DecoderState, edges: seq<TimedEdge>): RunResult
    decreases |edges|
  {
    if edges == [] then RunResult(s, [])
    else
      var first := next(s, edges[0]);
      var rest := Fold(next, first.state, edges[1..]);
      RunResult(rest.state, Emitted(first) + rest.accepted)
  }

  lemma {:induction false} FoldKeepsValid(s: DecoderState, edges: seq<TimedEdge>, clearOnSync: bool)
    requires s.Valid()
    ensures Fold(Next(clearOnSync), s, edges).state.Valid()
    decreases |edges|
  {
    if edges != [] {
      FoldKeepsValid(Step(s, edges[0], clearOnSync).state, edges[1..], clearOnSync);
    }
  }

  function Run(s: DecoderState, edges: seq<TimedEdge>, clearOnSync: bool): (r: RunResult)
    requires s.Valid()
    ensures r.state.Valid()
  {
    FoldKeepsValid(s, edges, clearOnSync);
    Fold(Next(clearOnSync), s, edges)
  }

  /** Running two sequences one after the other is running their
      concatenation, for any step function. */
  lemma {:induction false} FoldAppend(next: (DecoderState, TimedEdge) -> StepResult, s: DecoderState, a: seq<TimedEdge>, b: seq<TimedEdge>)
    ensures var ra := Fold(next, s, a);
      var rb := Fold(next, ra.state, b);
      Fold(next, s, a + b) == RunResult(rb.state, ra.accepted + rb.accepted)
    decreases |a|
  {
    if a == [] {
      assert a + b == b;
    } else {
      var first := next(s, a[0]);
      assert (a + b)[0] == a[0];
      assert (a + b)[1..] == a[1..] + b;
      FoldAppend(next, first.state, a[1..], b);
      var ra' := Fold(next, first.state, a[1..]);
      var rb := Fold(next, ra'.state, b);
      assert Emitted(first) + (ra'.accepted + rb.accepted) == (Emitted(first) + ra'.accepted) + rb.accepted;
    }
  }

  /** The checksum a call publishes, if it accepts a frame. */
  function Emitted(r: StepResult): (out: seq<bv8>)
    ensures |out| <= 1 && (out != [] <==> r.accepted)
  {
    if r.accepted then [r.state.lastCrc] else []
  }

  /** Running two sequences one after the other is running their
      concatenation. */
  lemma RunAppend(s: DecoderState, a: seq<TimedEdge>, b: seq<TimedEdge>, clearOnSync: bool)
    requires s.Valid()
    ensures var ra := Run(s, a, clearOnSync);
      var rb := Run(ra.state, b, clearOnSync);
      Run(s, a + b, clearOnSync) == RunResult(rb.state, ra.accepted + rb.accepted)
  {
    FoldAppend(Next(clearOnSync), s, a, b);
  }

  /** Two calls. */
  lemma RunPair(s: DecoderState, e1: TimedEdge, e2: TimedEdge, clearOnSync: bool)
    requires s.Valid()
    ensures var r1 := Step(s, e1, clearOnSync);
      var r2 := Step(r1.state, e2, clearOnSync);
      Run(s, [e1, e2], clearOnSync) ==
        RunResult(r2.state, Emitted(r1) + Emitted(r2))
  {
    var r1 := Step(s, e1, clearOnSync);
    var r2 := Step(r1.state, e2, clearOnSync);
    assert [e1, e2][1..] == [e2];
    assert [e2][1..] == [];
    assert Run(r2.state, [], clearOnSync) == RunResult(r2.state, []);
    assert Run(r1.state, [e2], clearOnSync) == RunResult(r2.state, Emitted(r2) + []);
  }

  /** Every accepted checksum differs from the one accepted before it (the
      first from the initial `lastCrc`), and `lastCrc` ends as the last one
      accepted. */
  ghost predicate FreshChecksums(initialCrc: bv8, accepted: seq<bv8>, finalCrc: bv8)
  {
    && (forall i :: 0 < i < |accepted| ==> accepted[i] != accepted[i - 1])
    && (|accepted| > 0 ==> accepted[0] != initialCrc)
    && finalCrc == (if accepted == [] then initialCrc else accepted[|accepted| - 1])
  }

  /** The duplicate gate over any sequence of calls: the decoder never
      accepts the same checksum twice in a row. */
  lemma {:induction false} AcceptedChecksumsAlternate(s: DecoderState, edges: seq<TimedEdge>, clearOnSync: bool)
    requires s.Valid()
    ensures var r := Run(s, edges, clearOnSync);
      FreshChecksums(s.lastCrc, r.accepted, r.state.lastCrc)
    decreases |edges|
  {
    if edges != [] {
      var first := Step(s, edges[0], clearOnSync);
      LastCrcMovesIffAccepted(s, edges[0], clearOnSync);
      AcceptedChecksumsAlternate(first.state, edges[1..], clearOnSync);
      var rest := Run(first.state, edges[1..], clearOnSync);
      FreshPrepend(s.lastCrc, Emitted(first), first.state.lastCrc, rest.accepted, rest.state.lastCrc);
    }
  }

  /** One call's output in front of a fresh sequence keeps it fresh. */
  lemma FreshPrepend(c0: bv8, e: seq<bv8>, c1: bv8, acc: seq<bv8>, cf: bv8)
    requires e == [] || e == [c1]
    requires e == [] <==> c1 == c0
    requires FreshChecksums(c1, acc, cf)
    ensures FreshChecksums(c0, e + acc, cf)
  {
    if e != [] {
      forall i | 0 < i < |e + acc| ensures (e + acc)[i] != (e + acc)[i - 1] {
        if i == 1 { assert (e + acc)[0] == c1; } else { assert (e + acc)[i] == acc[i - 1]; }
      }
    } else {
      assert e + acc == acc;
    }
  }

  /** `lastCrc` starts at 0, so a frame whose checksum is 0 can never be the
      first frame accepted after power-up. */
  lemma ZeroChecksumNeverFirstAccepted(edges: seq<TimedEdge>, clearOnSync: bool)
    ensures var r := Run(INIT, edges, clearOnSync);
      |r.accepted| > 0 ==> r.accepted[0] != 0
  {
    AcceptedChecksumsAlternate(INIT, edges, clearOnSync);
  }

  /** `bitIndex` stays in [-1, 95] and only an accepted frame moves
      `lastCrc`, however many calls are made. */
  lemma {:induction false} RunKeepsInvariant(s: DecoderState, edges: seq<TimedEdge>, clearOnSync: bool)
    requires s.Valid()
    ensures var r := Run(s, edges, clearOnSync);
      -1 <= r.state.bitIndex < FRAME_BITS && (r.accepted == [] ==> r.state.lastCrc == s.lastCrc)
    decreases |edges|
  {
    if edges != [] {
      var first := Step(s, edges[0], clearOnSync);
      LastCrcMovesIffAccepted(s, edges[0], clearOnSync);
      RunKeepsInvariant(first.state, edges[1..], clearOnSync);
    }
  }

  // ---------------------------------------------------------------------
  // Encoding a frame as interval widths, and decoding it back.

  /** The widths of a pair of intervals, the longer and the shorter. */
  datatype Pulse = Pulse(long: ULong, short: ULong)

  /** Widths that read as a sync: the long interval at least 31 times the
      short one. */
  type SyncPulse = p: Pulse | 0 < p.short && p.long >= SYNC_RATIO * p.short witness Pulse(31, 1)

  /** Widths that read as a bit: the long interval more than 1.5 times the
      short one, yet less than 31 times. */
  type BitPulse = p: Pulse | 0 < p.short && 2 * p.long > 3 * p.short && p.long < SYNC_RATIO * p.short
    witness Pulse(2, 1)

  /** A sync pulse: the long interval, then the short one. */
  function SyncEdges(p: SyncPulse): (r: seq<TimedEdge>)
    ensures |r| == 2 && r[1].level == Low && r[0].duration >= SYNC_RATIO * r[1].duration > 0
  {
    [Edge(High, p.long), Edge(Low, p.short)]
  }

  /** One bit: a 0 is the long interval then the short one, a 1 the other
      way round. */
  function BitEdges(b: bool, p: BitPulse): (r: seq<TimedEdge>)
    ensures |r| == 2 && r[0].level == High && r[1].level == Low
    ensures r[0].duration == (if b then p.short else p.long)
    ensures r[1].duration == (if b then p.long else p.short)
  {
    if b then [Edge(High, p.short), Edge(Low, p.long)] else [Edge(High, p.long), Edge(Low, p.short)]
  }

  /** Bits k..95 of a frame, MSB-first, bit j sent with widths `ps[j]`. */
  function BitsFrom(f: seq<bv8>, k: nat, ps: seq<BitPulse>): (r: seq<TimedEdge>)
    requires |f| == FRAME_BYTES && k <= FRAME_BITS && |ps| == FRAME_BITS
    ensures |r| == 2 * (FRAME_BITS - k)
    decreases FRAME_BITS - k
  {
    if k == FRAME_BITS then []
    else
      var head := BitEdges(FrameBit(f, k), ps[k]);
      var tail := BitsFrom(f, k + 1, ps);
      head + tail
  }

  /** The edges a transmitter produces for one frame: a sync pulse, then 96
      bits, each pulse with widths of its own. */
  function EncodeFrame(f: seq<bv8>, sync: SyncPulse, ps: seq<BitPulse>): (r: seq<TimedEdge>)
    requires |f| == FRAME_BYTES && |ps| == FRAME_BITS
    ensures |r| == 2 + 2 * FRAME_BITS
  {
    SyncEdges(sync) + BitsFrom(f, 0, ps)
  }

  /** Whether the decoder publishes frame f when `lastCrc` is `lastCrc`. */
  predicate Publishes(f: seq<bv8>, lastCrc: bv8)
    requires |f| == FRAME_BYTES
  {
    ChecksumMatches(f) && Checksum(f) != lastCrc
  }

  /** Two calls for one bit: with bits 0..k-1 already in place, bit k is
      written and `bitIndex` moves on, or at bit 95 the frame completes and
      is judged by its checksum. `r` is the second call's result. */
  lemma OneBit(s: DecoderState, f: seq<bv8>, k: nat, p: BitPulse, clearOnSync: bool) returns (r: StepResult)
    requires s.Valid() && |f| == FRAME_BYTES && k < FRAME_BITS && s.bitIndex == k
    requires AgreeUpTo(s.data, f, k)
    ensures r.state.Valid()
    ensures Run(s, BitEdges(FrameBit(f, k), p), clearOnSync) == RunResult(r.state, Emitted(r))
    ensures AgreeUpTo(r.state.data, f, k + 1)
    ensures r.state.bitIndex == (if k == FRAME_BITS - 1 then 0 else k + 1)
    ensures r.accepted <==> k == FRAME_BITS - 1 && ChecksumMatches(r.state.data) && Checksum(r.state.data) != s.lastCrc
    ensures r.state.lastCrc == (if r.accepted then Checksum(r.state.data) else s.lastCrc)
  {
    var b := FrameBit(f, k);
    var edges := BitEdges(b, p);
    var s1 := Step(s, edges[0], clearOnSync).state;
    assert s1 == s.(lastDuration := edges[0].duration);
    r := Step(s1, edges[1], clearOnSync);
    if b {
      ShortThenLongIsOne(s1, edges[1], clearOnSync);
    } else {
      LongThenShortIsZero(s1, edges[1], clearOnSync);
    }
    if k == FRAME_BITS - 1 {
      LastBitCompletesFrame(s1, edges[1], clearOnSync);
    }
    RunPair(s, edges[0], edges[1], clearOnSync);
    assert edges == [edges[0], edges[1]];
  }

  /** Bits 0..k-1 of buffer `data` are those of frame f. */
  predicate AgreeUpTo(data: seq<bv8>, f: seq<bv8>, k: nat)
    requires |data| == FRAME_BYTES && |f| == FRAME_BYTES && k <= FRAME_BITS
  {
    forall j :: 0 <= j < k ==> FrameBit(data, j) == FrameBit(f, j)
  }

  /** What running the rest of frame f leaves behind, from a decoder whose
      `lastCrc` was `lastCrc`: f in the buffer, `bitIndex` at 0, and f
      published iff its checksum matches and differs from `lastCrc`. */
  predicate DecodedAs(r: RunResult, f: seq<bv8>, lastCrc: bv8)
    requires |f| == FRAME_BYTES
  {
    && r.state.data == f && r.state.bitIndex == 0
    && r.accepted == (if Publishes(f, lastCrc) then [Checksum(f)] else [])
    && r.state.lastCrc == (if Publishes(f, lastCrc) then Checksum(f) else lastCrc)
  }

  /** Bit k < 95: its two intervals write the bit, leave the checksum state
      alone, and the rest of the frame is then decoded from there. */
  lemma MiddleBit(s: DecoderState, f: seq<bv8>, k: nat, ps: seq<BitPulse>, clearOnSync: bool)
    requires s.Valid() && |f| == FRAME_BYTES && |ps| == FRAME_BITS && k < FRAME_BITS - 1 && s.bitIndex == k
    requires AgreeUpTo(s.data, f, k)
    ensures var ra := Run(s, BitEdges(FrameBit(f, k), ps[k]), clearOnSync);
      && ra.state.bitIndex == k + 1 && ra.state.lastCrc == s.lastCrc
      && AgreeUpTo(ra.state.data, f, k + 1)
      && Run(s, BitsFrom(f, k, ps), clearOnSync) == Run(ra.state, BitsFrom(f, k + 1, ps), clearOnSync)
  {
    var head := BitEdges(FrameBit(f, k), ps[k]);
    var tail := BitsFrom(f, k + 1, ps);
    assert BitsFrom(f, k, ps) == head + tail;
    var r := OneBit(s, f, k, ps[k], clearOnSync);
    RunAppend(s, head, tail, clearOnSync);
    var rb := Run(r.state, tail, clearOnSync);
    assert [] + rb.accepted == rb.accepted;
  }

  /** Bit 95: its two intervals complete the frame, which is then f. */
  lemma LastBit(s: DecoderState, f: seq<bv8>, ps: seq<BitPulse>, clearOnSync: bool)
    requires s.Valid() && |f| == FRAME_BYTES && |ps| == FRAME_BITS && s.bitIndex == FRAME_BITS - 1
    requires AgreeUpTo(s.data, f, FRAME_BITS - 1)
    ensures DecodedAs(Run(s, BitsFrom(f, FRAME_BITS - 1, ps), clearOnSync), f, s.lastCrc)
  {
    var k := FRAME_BITS - 1;
    var head := BitEdges(FrameBit(f, k), ps[k]);
    var tail := BitsFrom(f, k + 1, ps);
    assert BitsFrom(f, k, ps) == head + tail;
    assert tail == [];
    assert head + tail == head;
    var r := OneBit(s, f, k, ps[k], clearOnSync);
    FrameBitsDetermineFrame(r.state.data, f);
  }

  /** Bits k..95 of frame f, fed in after bits 0..k-1 are in place, leave
      exactly f in the buffer and `bitIndex` at 0; the frame is published iff
      its checksum matches and differs from `lastCrc`. */
  lemma {:induction false} RemainingBits(s: DecoderState, f: seq<bv8>, k: nat, ps: seq<BitPulse>, clearOnSync: bool)
    requires s.Valid() && |f| == FRAME_BYTES && |ps| == FRAME_BITS && k < FRAME_BITS && s.bitIndex == k
    requires AgreeUpTo(s.data, f, k)
    ensures DecodedAs(Run(s, BitsFrom(f, k, ps), clearOnSync), f, s.lastCrc)
    decreases FRAME_BITS - k
  {
    if k == FRAME_BITS - 1 {
      LastBit(s, f, ps, clearOnSync);
    } else {
      MiddleBit(s, f, k, ps, clearOnSync);
      var ra := Run(s, BitEdges(FrameBit(f, k), ps[k]), clearOnSync);
      RemainingBits(ra.state, f, k + 1, ps, clearOnSync);
    }
  }

  /** Decoding inverts encoding: whatever state the decoder is in (even
      unsynchronised or halfway through another frame), and whatever widths
      the transmitter gives each pulse within the ratio bands, the edges of
      frame f leave exactly f in the buffer with `bitIndex` at 0, and publish
      f iff its checksum matches and is not the last one accepted. */
  lemma EncodedFrameDecodes(s: DecoderState, f: seq<bv8>, sync: SyncPulse, ps: seq<BitPulse>, clearOnSync: bool)
    requires s.Valid() && |f| == FRAME_BYTES && |ps| == FRAME_BITS
    ensures DecodedAs(Run(s, EncodeFrame(f, sync, ps), clearOnSync), f, s.lastCrc)
  {
    RunAppend(s, SyncEdges(sync), BitsFrom(f, 0, ps), clearOnSync);
    var s2 := SyncPulseStartsFrame(s, sync, clearOnSync);
    RemainingBits(s2, f, 0, ps, clearOnSync);
    assert [] + Run(s2, BitsFrom(f, 0, ps), clearOnSync).accepted == Run(s2, BitsFrom(f, 0, ps), clearOnSync).accepted;
  }

  /** A sync pulse publishes nothing and leaves the decoder at bit 0 with
      `lastCrc` unchanged. `s2` is the state it leaves. */
  lemma SyncPulseStartsFrame(s: DecoderState, sync: SyncPulse, clearOnSync: bool) returns (s2: DecoderState)
    requires s.Valid()
    ensures Run(s, SyncEdges(sync), clearOnSync) == RunResult(s2, [])
    ensures s2.Valid() && s2.bitIndex == 0 && s2.lastCrc == s.lastCrc
    ensures s2.data == (if clearOnSync then ZERO_FRAME else s.data)
  {
    var head := SyncEdges(sync);
    var s1 := Step(s, head[0], clearOnSync).state;
    SyncResetsFrame(s1, head[1], clearOnSync);
    RunPair(s, head[0], head[1], clearOnSync);
    assert head == [head[0], head[1]];
    s2 := Step(s1, head[1], clearOnSync).state;
  }

  /** Once frame f has been decoded, `lastCrc` is such that f itself is
      no longer publishable. */
  lemma DecodedFrameNotRepublishable(r: RunResult, f: seq<bv8>, lastCrc: bv8)
    requires |f| == FRAME_BYTES && DecodedAs(r, f, lastCrc)
    ensures !Publishes(f, r.state.lastCrc)
  {
  }

  /** A second copy of a frame, right after the first, publishes nothing,
      however the widths of either copy's pulses differ. */
  lemma SecondCopySilent(s: DecoderState, f: seq<bv8>, sync1: SyncPulse, ps1: seq<BitPulse>,
                         sync2: SyncPulse, ps2: seq<BitPulse>, clearOnSync: bool)
    requires s.Valid() && |f| == FRAME_BYTES && |ps1| == FRAME_BITS && |ps2| == FRAME_BITS
    ensures Run(Run(s, EncodeFrame(f, sync1, ps1), clearOnSync).state, EncodeFrame(f, sync2, ps2), clearOnSync).accepted == []
  {
    var once := Run(s, EncodeFrame(f, sync1, ps1), clearOnSync);
    EncodedFrameDecodes(s, f, sync1, ps1, clearOnSync);
    DecodedFrameNotRepublishable(once, f, s.lastCrc);
    EncodedFrameDecodes(once.state, f, sync2, ps2, clearOnSync);
  }

  /** The same frame sent twice in a row is published at most once: the
      second copy is a duplicate of the first. */
  lemma DuplicateFrameDiscarded(s: DecoderState, f: seq<bv8>, sync1: SyncPulse, ps1: seq<BitPulse>,
                                sync2: SyncPulse, ps2: seq<BitPulse>, clearOnSync: bool)
    requires s.Valid() && |f| == FRAME_BYTES && |ps1| == FRAME_BITS && |ps2| == FRAME_BITS
    ensures var once := Run(s, EncodeFrame(f, sync1, ps1), clearOnSync);
      && Run(once.state, EncodeFrame(f, sync2, ps2), clearOnSync).accepted == []
      && Run(s, EncodeFrame(f, sync1, ps1) + EncodeFrame(f, sync2, ps2), clearOnSync).accepted == once.accepted
  {
    SecondCopySilent(s, f, sync1, ps1, sync2, ps2, clearOnSync);
    SilentTail(s, EncodeFrame(f, sync1, ps1), EncodeFrame(f, sync2, ps2), clearOnSync);
  }

  /** Edges that publish nothing add nothing to what came before them. */
  lemma SilentTail(s: DecoderState, a: seq<TimedEdge>, b: seq<TimedEdge>, clearOnSync: bool)
    requires s.Valid() && Run(Run(s, a, clearOnSync).state, b, clearOnSync).accepted == []
    ensures Run(s, a + b, clearOnSync).accepted == Run(s, a, clearOnSync).accepted
  {
    RunAppend(s, a, b, clearOnSync);
    assert Run(s, a, clearOnSync).accepted + [] == Run(s, a, clearOnSync).accepted;
  }

  /** A frame with a corrupted checksum byte is not published, and leaves
      `lastCrc` as it was. */
  lemma CorruptFrameDiscarded(s: DecoderState, f: seq<bv8>, v: bv8, sync: SyncPulse, ps: seq<BitPulse>, clearOnSync: bool)
    requires s.Valid() && |f| == FRAME_BYTES && |ps| == FRAME_BITS && ChecksumMatches(f) && v != f[CRC_INDEX]
    ensures var r := Run(s, EncodeFrame(f[CRC_INDEX := v], sync, ps), clearOnSync);
      r.accepted == [] && r.state.lastCrc == s.lastCrc
  {
    SingleByteCorruptionDetected(f, CRC_INDEX, v);
    EncodedFrameDecodes(s, f[CRC_INDEX := v], sync, ps, clearOnSync);
  }
}
