/** Two places where the firmware, as written, does less than its design
    promises, each stated twice: once about the decoder and reader as the
    source has them, and once about a corrected definition with the
    promised property proved.

    1. A frame needs no sync pulse. At power-up `bitIndex` is -1; the first
       bit interval writes nowhere (bit 8 of byte 0 lies outside the byte)
       and still moves `bitIndex` to 0, so the next 96 bits are accepted as
       a frame although no sync pulse was ever seen (src/main.cpp:172-205).

    2. The main loop reads the live buffer. `newDataAvailable` is raised at
       acceptance but the frame stays in the buffer the interrupt keeps
       writing; a sync pulse before the loop's copy (src/main.cpp:99-110)
       zeroes it, and the loop parses the zeros as telemetry. */
module SifFindings {
  import opened Bits
  import opened SifProtocol
  import opened SifRuns
  import opened SifDecoder
  import opened Logic
  import opened MainReader

  // ---------------------------------------------------------------------
  // 1. Decoding without a sync pulse.

  /** No falling edge of `edges` closes a sync pair; `last` is the interval
      before the first edge. */
  predicate NoSyncFrom(last: ULong, edges: seq<TimedEdge>)
    decreases |edges|
  {
    edges == [] ||
    (!(edges[0].level == Low && last > 0 && last >= SYNC_RATIO * edges[0].duration)
     && NoSyncFrom(edges[0].duration, edges[1..]))
  }

  /** A bit pulse in front of sync-free edges contains no sync either. */
  lemma NoSyncBeforePulse(last: ULong, b: bool, p: BitPulse, rest: seq<TimedEdge>)
    requires NoSyncFrom(BitEdges(b, p)[1].duration, rest)
    ensures NoSyncFrom(last, BitEdges(b, p) + rest)
  {
  }

  /** The bits of a frame, whatever their widths, contain no sync pair. */
  lemma {:induction false} NoSyncInBits(last: ULong, f: seq<bv8>, k: nat, ps: seq<BitPulse>)
    requires |f| == FRAME_BYTES && k <= FRAME_BITS && |ps| == FRAME_BITS
    ensures NoSyncFrom(last, BitsFrom(f, k, ps))
    decreases FRAME_BITS - k
  {
    if k < FRAME_BITS {
      var head := BitEdges(FrameBit(f, k), ps[k]);
      NoSyncInBits(head[1].duration, f, k + 1, ps);
      NoSyncBeforePulse(last, FrameBit(f, k), ps[k], BitsFrom(f, k + 1, ps));
      assert BitsFrom(f, k, ps) == head + BitsFrom(f, k + 1, ps);
    }
  }

  /** As written: from power-up, one stray bit pulse followed by the 96 bits
      of a frame publishes that frame, although no sync pulse is among the
      edges. */
  lemma DecodesWithoutSync(f: seq<bv8>, p: BitPulse, ps: seq<BitPulse>, clearOnSync: bool)
    requires |f| == FRAME_BYTES && |ps| == FRAME_BITS && Publishes(f, INIT.lastCrc)
    ensures var edges := BitEdges(false, p) + BitsFrom(f, 0, ps);
      && NoSyncFrom(INIT.lastDuration, edges)
      && Run(INIT, edges, clearOnSync).accepted == [Checksum(f)]
  {
    var head := BitEdges(false, p);
    var bits := BitsFrom(f, 0, ps);
    NoSyncInBits(head[1].duration, f, 0, ps);
    NoSyncBeforePulse(INIT.lastDuration, false, p, bits);
    var s1 := Step(INIT, head[0], clearOnSync).state;
    LongThenShortIsZero(s1, head[1], clearOnSync);
    RunPair(INIT, head[0], head[1], clearOnSync);
    assert head == [head[0], head[1]];
    var s2 := Step(s1, head[1], clearOnSync).state;
    RemainingBits(s2, f, 0, ps, clearOnSync);
    RunAppend(INIT, head, bits, clearOnSync);
  }

  /** Corrected: while unsynchronised (`bitIndex == -1`) a bit interval is
      ignored instead of starting a frame; in every other case the call is
      the firmware's. */
  function SyncedStep(s: DecoderState, e: Edge, clearOnSync: bool): (r: StepResult)
    requires s.Valid() && CanDivide(s, e)
    ensures r.state.Valid()
    ensures s.bitIndex >= 0 ==> r == Step(s, e, clearOnSync)
    ensures s.bitIndex == -1 && r.state.bitIndex != -1 ==>
      e.level == Low && s.lastDuration > 0 && s.lastDuration >= SYNC_RATIO * e.duration
  {
    if s.bitIndex == -1 && e.level == Low && s.lastDuration > 0
       && Classify(s.lastDuration, e.duration) in {Zero, One}
    then StepResult(s.(lastDuration := e.duration), false)
    else Step(s, e, clearOnSync)
  }

  function SyncedNext(clearOnSync: bool): (DecoderState, TimedEdge) -> StepResult
  {
    (s: DecoderState, e: TimedEdge) => if s.Valid() then SyncedStep(s, e, clearOnSync) else StepResult(s, false)
  }

  /** Corrected: a decoder that has not seen a sync pulse stays
      unsynchronised and accepts nothing, however many edges arrive; so
      every accepted frame follows a sync pulse. */
  lemma {:induction false} UnsyncedStaysSilent(s: DecoderState, edges: seq<TimedEdge>, clearOnSync: bool)
    requires s.Valid() && s.bitIndex == -1 && NoSyncFrom(s.lastDuration, edges)
    ensures var r := Fold(SyncedNext(clearOnSync), s, edges);
      && r.accepted == [] && r.state.bitIndex == -1
      && r.state.data == s.data && r.state.lastCrc == s.lastCrc
    decreases |edges|
  {
    if edges != [] {
      var e := edges[0];
      var first := SyncedStep(s, e, clearOnSync);
      if e.level == Low && s.lastDuration > 0 {
        var c := Classify(s.lastDuration, e.duration);
        if c == Noise {
          InconclusiveRatioIsNoise(s, e, clearOnSync);
        }
      } else {
        IdleEdgeOnlyRecordsDuration(s, e, clearOnSync);
      }
      assert first == StepResult(s.(lastDuration := e.duration), false);
      UnsyncedStaysSilent(first.state, edges[1..], clearOnSync);
    }
  }

  // ---------------------------------------------------------------------
  // 2. The main loop reads the live buffer.

  /** As written: with a frame waiting, a sync pulse before the main loop's
      copy zeroes the buffer while the flag stays raised, and the loop
      parses the all-zero buffer instead of the accepted frame. */
  method SyncBeforeCopyParsesZeros(reader: SifReader, logic: VehicleLogic)
    requires reader.Valid() && reader.newDataAvailable && logic.data.usingSifData
    requires reader.decoder.lastDuration >= SYNC_RATIO
    modifies reader, reader.decoder, reader.decoder.data, logic
    ensures logic.data == WithSifFrame(old(logic.data), ZERO_FRAME)
  {
    SyncResetsFrame(reader.decoder.State(), Edge(Low, 1), true);
    reader.SifChange(Low, 1);
    reader.ConsumeFrame(logic);
  }

  /** Corrected: the interrupt handler copies the buffer when it accepts a
      frame, and the main loop parses that copy. */
  class SnapshotReader {
    const decoder: Decoder
    var newDataAvailable: bool
    var sifPacketCount: nat
    /** The buffer as it was when the last frame was accepted. */
    var frame: seq<bv8>

    /** A waiting frame is the one last accepted: its checksum matches and
        is `lastCrc`. */
    ghost predicate Valid()
      reads this, decoder
    {
      && decoder.Valid() && decoder.clearOnSync && |frame| == FRAME_BYTES
      && (newDataAvailable ==> ChecksumMatches(frame) && Checksum(frame) == decoder.lastCrc)
    }

    constructor()
      ensures Valid() && fresh(decoder) && fresh(decoder.data)
      ensures decoder.State() == INIT && !newDataAvailable && sifPacketCount == 0
    {
      decoder := new Decoder(true);
      newDataAvailable := false;
      sifPacketCount := 0;
      frame := ZERO_FRAME;
    }

    /** One pin edge: the flag is raised and the buffer copied exactly when
        the edge completes a fresh frame. */
    method SifChange(level: Level, duration: ULong)
      requires Valid() && CanDivide(decoder.State(), Edge(level, duration))
      modifies this, decoder, decoder.data
      ensures Valid()
      ensures var r := Step(old(decoder.State()), Edge(level, duration), true);
        && decoder.State() == r.state
        && newDataAvailable == (old(newDataAvailable) || r.accepted)
        && frame == (if r.accepted then r.state.data else old(frame))
        && sifPacketCount == old(sifPacketCount)
    {
      ghost var s0 := decoder.State();
      LastCrcMovesIffAccepted(s0, Edge(level, duration), true);
      AcceptRecordsChecksum(s0, Edge(level, duration), true);
      var accepted := decoder.HandleEdge(level, duration);
      if accepted {
        frame := decoder.data[..];
        newDataAvailable := true;
      }
    }

    /** The main loop's block: a waiting frame is parsed from the copy, which
        is always a frame whose checksum matches and the last one
        accepted. */
    method ConsumeFrame(logic: VehicleLogic)
      requires Valid()
      modifies this, logic
      ensures Valid() && decoder.State() == old(decoder.State()) && frame == old(frame)
      ensures old(newDataAvailable && logic.data.usingSifData) ==>
        && ChecksumMatches(frame) && Checksum(frame) == decoder.lastCrc
        && !newDataAvailable && sifPacketCount == old(sifPacketCount) + 1
        && logic.data == WithSifFrame(old(logic.data), frame)
        && logic.targetRpm == logic.data.rpm
      ensures !old(newDataAvailable && logic.data.usingSifData) ==>
        && newDataAvailable == old(newDataAvailable) && sifPacketCount == old(sifPacketCount)
        && logic.data == old(logic.data) && logic.targetRpm == old(logic.targetRpm)
      ensures logic.lastPythonData == old(logic.lastPythonData)
    {
      if newDataAvailable && logic.data.usingSifData {
        newDataAvailable := false;
        sifPacketCount := sifPacketCount + 1;
        logic.ParseSifData(frame);
      }
    }
  }

  /** Corrected: in the scenario of `SyncBeforeCopyParsesZeros` the loop
      parses the accepted frame. */
  method SyncBeforeCopyParsesSnapshot(reader: SnapshotReader, logic: VehicleLogic)
    requires reader.Valid() && reader.newDataAvailable && logic.data.usingSifData
    requires reader.decoder.lastDuration >= SYNC_RATIO
    modifies reader, reader.decoder, reader.decoder.data, logic
    ensures logic.data == WithSifFrame(old(logic.data), old(reader.frame))
    ensures ChecksumMatches(old(reader.frame))
  {
    SyncResetsFrame(reader.decoder.State(), Edge(Low, 1), true);
    reader.SifChange(Low, 1);
    reader.ConsumeFrame(logic);
  }
}
