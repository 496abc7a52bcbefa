/** The SIF edge-timing decoder and frame validator as a pure state machine.
    Each pin-change interrupt is one `Step` on a `DecoderState` that collects
    the handler's globals (`lastDuration`, `bitIndex`, `data[12]`, `lastCrc`).
    The three copies of the handler (src/main.cpp, logger.c, dash.c) share this
    step; they differ only in whether a sync pulse zeroes the buffer
    (`clearOnSync`) and in what they do with an accepted frame, which the
    per-file classes add on top. */
module SifProtocol {
  import opened Bits

  const FRAME_BYTES: nat := 12
  const FRAME_BITS: nat := 96
  /** Byte 11 carries the checksum of bytes 0..10. */
  const CRC_INDEX: nat := 11
  /** An interval at least this many times shorter than the one before it is
      a sync pulse. */
  const SYNC_RATIO: nat := 31

  /** The pin level read at the start of the handler. */
  datatype Level = Low | High

  /** One call of the handler: the level now on the pin and the time elapsed
      since the previous call (`micros() - lastTime`). */
  datatype Edge = Edge(level: Level, duration: ULong)

  /** How a falling-edge interval compares with the interval before it. */
  datatype Interval = Sync | Zero | One | Noise

  /** `lastDuration / duration >= 31` in integer division is the same as
      `lastDuration >= 31 * duration`. */
  lemma SyncByQuotient(last: nat, dur: nat)
    requires dur > 0
    ensures last / dur >= SYNC_RATIO <==> last >= SYNC_RATIO * dur
  {
    var q, r := last / dur, last % dur;
    assert last == q * dur + r && 0 <= r < dur;
    if q >= SYNC_RATIO {
      assert q * dur >= SYNC_RATIO * dur;
    } else {
      assert q + 1 <= SYNC_RATIO;
      assert (q + 1) * dur <= SYNC_RATIO * dur;
    }
  }

  /** The decision of the handler's if/else chain. The sync test comes first
      and uses integer division (`round` of an integer is the integer
      itself); the two bit tests compare the ratio of the previous interval
      to the current one with 1.5, written here without floating point. */
  function Classify(last: ULong, dur: ULong): (c: Interval)
    requires dur > 0
    ensures c == Sync <==> last >= SYNC_RATIO * dur
    ensures c == Zero <==> last < SYNC_RATIO * dur && 2 * last > 3 * dur
    ensures c == One <==> 2 * dur > 3 * last
    ensures c == Noise <==> 2 * last <= 3 * dur && 2 * dur <= 3 * last
  {
    SyncByQuotient(last, dur);
    if last / dur >= SYNC_RATIO then Sync
    else if 2 * last > 3 * dur then Zero
    else if 2 * dur > 3 * last then One
    else Noise
  }

  /** Bit j of a 96-bit frame, packed MSB-first: byte j / 8, bit 7 - j % 8. */
  predicate FrameBit(data: seq<bv8>, j: nat)
    requires |data| == FRAME_BYTES && j < FRAME_BITS
  {
    BitRead(data[j / 8], 7 - j % 8)
  }

  /** `bitClear`/`bitSet(data[bitIndex / 8], 7 - (bitIndex % 8))`. With
      bitIndex == -1, C's truncating division addresses byte 0, bit 8, which
      lies outside the byte: the byte is left as it was. */
  function WriteBit(data: seq<bv8>, index: int, v: bool): (r: seq<bv8>)
    requires |data| == FRAME_BYTES && -1 <= index < FRAME_BITS
    ensures |r| == FRAME_BYTES
    ensures index == -1 ==> r == data
    ensures index >= 0 ==> FrameBit(r, index) == v
    ensures forall j :: 0 <= j < FRAME_BITS && j != index ==> FrameBit(r, j) == FrameBit(data, j)
  {
    if index == -1 then data
    else
      var i, k := index / 8, 7 - index % 8;
      var r := data[i := if v then BitSet(data[i], k) else BitClear(data[i], k)];
      assert forall j :: 0 <= j < FRAME_BITS && j != index ==> FrameBit(r, j) == FrameBit(data, j) by {
        forall j | 0 <= j < FRAME_BITS && j != index
          ensures FrameBit(r, j) == FrameBit(data, j)
        {
          if j / 8 == i {
            assert 7 - j % 8 != k;
          }
        }
      }
      r
  }

  /** Two frames with the same 96 bits are the same frame. */
  lemma FrameBitsDetermineFrame(a: seq<bv8>, b: seq<bv8>)
    requires |a| == FRAME_BYTES && |b| == FRAME_BYTES
    requires forall j :: 0 <= j < FRAME_BITS ==> FrameBit(a, j) == FrameBit(b, j)
    ensures a == b
  {
    forall i | 0 <= i < FRAME_BYTES
      ensures a[i] == b[i]
    {
      forall k | 0 <= k < 8
        ensures BitRead(a[i], k) == BitRead(b[i], k)
      {
        var j := 8 * i + (7 - k);
        assert j / 8 == i && 7 - j % 8 == k;
        assert FrameBit(a, j) == FrameBit(b, j);
      }
      BitsDetermineByte(a[i], b[i]);
    }
  }

  /** The XOR of payload bytes 0..10: the value byte 11 must hold for the
      XOR of the whole frame to be 0. */
  function Checksum(data: seq<bv8>): (r: bv8)
    requires |data| == FRAME_BYTES
    ensures r == data[CRC_INDEX] <==> Xor(data) == 0
  {
    assert data[..|data| - 1] == data[..CRC_INDEX];
    Xor(data[..CRC_INDEX])
  }

  /** The checksum byte agrees with the payload. */
  predicate ChecksumMatches(data: seq<bv8>)
    requires |data| == FRAME_BYTES
    ensures ChecksumMatches(data) <==> Xor(data) == 0
  {
    Checksum(data) == data[CRC_INDEX]
  }

  /** A frame whose checksum matches is rejected after any change to exactly
      one of its twelve bytes. */
  lemma SingleByteCorruptionDetected(f: seq<bv8>, i: nat, v: bv8)
    requires |f| == FRAME_BYTES && ChecksumMatches(f)
    requires i < FRAME_BYTES && v != f[i]
    ensures !ChecksumMatches(f[i := v])
  {
    if i < CRC_INDEX {
      assert f[i := v][..CRC_INDEX] == f[..CRC_INDEX][i := v];
      XorDetectsOneByte(f[..CRC_INDEX], i, v);
    } else {
      assert f[i := v][..CRC_INDEX] == f[..CRC_INDEX];
    }
  }

  /** The handler's globals. */
  datatype DecoderState = DecoderState(lastDuration: ULong, bitIndex: int, data: seq<bv8>, lastCrc: bv8)
  {
    /** `bitIndex` is -1 (not yet synchronised) or the next bit to write. */
    predicate Valid()
    {
      -1 <= bitIndex < FRAME_BITS && |data| == FRAME_BYTES
    }
  }

  const ZERO_FRAME: seq<bv8> := [0, 0, 0, 0, 0, 0, 0, 0, 0, 0, 0, 0]

  /** The globals at power-up: `bitIndex = -1`, everything else zero. */
  const INIT: DecoderState := DecoderState(0, -1, ZERO_FRAME, 0)

  /** The state after one call, and whether that call accepted a frame. */
  datatype StepResult = StepResult(state: DecoderState, accepted: bool)

  /** The source divides by `duration` only on a falling edge after a
      nonzero interval. */
  predicate CanDivide(s: DecoderState, e: Edge)
  {
    e.level == High || s.lastDuration == 0 || e.duration > 0
  }

  /** Frame completion once `bitIndex` has reached 96: back to 0; accept iff
      the checksum matches byte 11 and differs from the last accepted one. */
  function Complete(s: DecoderState): StepResult
    requires |s.data| == FRAME_BYTES
  {
    var crc := Checksum(s.data);
    if crc == s.data[CRC_INDEX] && crc != s.lastCrc then
      StepResult(s.(bitIndex := 0, lastCrc := crc), true)
    else
      StepResult(s.(bitIndex := 0), false)
  }

  /** `bitComplete`: advance `bitIndex`, completing the frame at 96. */
  function Advance(s: DecoderState): StepResult
    requires s.Valid()
  {
    if s.bitIndex + 1 == FRAME_BITS then Complete(s)
    else StepResult(s.(bitIndex := s.bitIndex + 1), false)
  }

  /** The body of `if (lastDuration > 0)` on a falling edge. */
  function Decode(s: DecoderState, dur: ULong, clearOnSync: bool): StepResult
    requires s.Valid() && dur > 0
  {
    match Classify(s.lastDuration, dur)
    case Sync => StepResult(s.(bitIndex := 0, data := if clearOnSync then ZERO_FRAME else s.data), false)
    case Zero => Advance(s.(data := WriteBit(s.data, s.bitIndex, false)))
    case One => Advance(s.(data := WriteBit(s.data, s.bitIndex, true)))
    case Noise => StepResult(s, false)
  }

  /** One call of `sifChange`. Whatever branch runs, `lastDuration` ends as
      the current duration and `bitIndex` stays within [-1, 95]. */
  function Step(s: DecoderState, e: Edge, clearOnSync: bool): (r: StepResult)
    requires s.Valid() && CanDivide(s, e)
    ensures r.state.Valid()
    ensures r.state.lastDuration == e.duration
    ensures r.accepted ==> r.state.bitIndex == 0 && ChecksumMatches(r.state.data)
  {
    var r := if e.level == Low && s.lastDuration > 0 then Decode(s, e.duration, clearOnSync)
             else StepResult(s, false);
    r.(state := r.state.(lastDuration := e.duration))
  }

  // ---------------------------------------------------------------------
  // One call, branch by branch.

  /** A rising edge, or a falling edge with no interval recorded yet,
      changes nothing but `lastDuration`. */
  lemma IdleEdgeOnlyRecordsDuration(s: DecoderState, e: Edge, clearOnSync: bool)
    requires s.Valid() && CanDivide(s, e)
    requires e.level == High || s.lastDuration == 0
    ensures Step(s, e, clearOnSync) == StepResult(s.(lastDuration := e.duration), false)
  {
  }

  /** A sync interval resets `bitIndex` to 0 without consuming a bit; the
      buffer is zeroed when `clearOnSync` (src/main.cpp) and kept otherwise
      (logger.c, dash.c). The sync test wins over the bit-0 test. */
  lemma SyncResetsFrame(s: DecoderState, e: Edge, clearOnSync: bool)
    requires s.Valid() && e.level == Low && s.lastDuration > 0 && e.duration > 0
    requires s.lastDuration >= SYNC_RATIO * e.duration
    ensures var r := Step(s, e, clearOnSync);
      && r.state.bitIndex == 0
      && r.state.data == (if clearOnSync then ZERO_FRAME else s.data)
      && r.state.lastCrc == s.lastCrc
      && !r.accepted
  {
  }

  /** The bit `b` decided by a falling edge is written at `bitIndex` (nothing
      is written while unsynchronised), `bitIndex` advances by one (96 wraps
      to 0), and every other bit of the buffer keeps its value. */
  predicate BitConsumed(s: DecoderState, r: StepResult, b: bool)
    requires s.Valid() && r.state.Valid()
  {
    && r.state.bitIndex == (if s.bitIndex == FRAME_BITS - 1 then 0 else s.bitIndex + 1)
    && (s.bitIndex >= 0 ==> FrameBit(r.state.data, s.bitIndex) == b)
    && (s.bitIndex == -1 ==> r.state.data == s.data)
    && (forall j :: 0 <= j < FRAME_BITS && j != s.bitIndex ==> FrameBit(r.state.data, j) == FrameBit(s.data, j))
    && (s.bitIndex < FRAME_BITS - 1 ==> r.state.lastCrc == s.lastCrc && !r.accepted)
  }

  /** A previous interval more than 1.5 times the current one (and not a
      sync) clears the addressed bit. */
  lemma LongThenShortIsZero(s: DecoderState, e: Edge, clearOnSync: bool)
    requires s.Valid() && e.level == Low && s.lastDuration > 0 && e.duration > 0
    requires s.lastDuration < SYNC_RATIO * e.duration && 2 * s.lastDuration > 3 * e.duration
    ensures BitConsumed(s, Step(s, e, clearOnSync), false)
  {
  }

  /** A current interval more than 1.5 times the previous one sets the
      addressed bit. */
  lemma ShortThenLongIsOne(s: DecoderState, e: Edge, clearOnSync: bool)
    requires s.Valid() && e.level == Low && s.lastDuration > 0 && e.duration > 0
    requires 2 * e.duration > 3 * s.lastDuration
    ensures BitConsumed(s, Step(s, e, clearOnSync), true)
  {
  }

  /** An inconclusive ratio (within a factor 1.5 either way) is noise: only
      `lastDuration` changes. Equal intervals are always noise. */
  lemma InconclusiveRatioIsNoise(s: DecoderState, e: Edge, clearOnSync: bool)
    requires s.Valid() && e.level == Low && e.duration > 0
    requires 2 * s.lastDuration <= 3 * e.duration && 2 * e.duration <= 3 * s.lastDuration
    ensures Step(s, e, clearOnSync) == StepResult(s.(lastDuration := e.duration), false)
  {
  }

  /** The 96th bit completes the frame: `bitIndex` returns to 0 whatever the
      outcome; the frame is accepted iff the XOR of bytes 0..10 equals byte
      11 and differs from `lastCrc`; acceptance records the checksum in
      `lastCrc`, rejection leaves `lastCrc` alone. */
  lemma LastBitCompletesFrame(s: DecoderState, e: Edge, clearOnSync: bool)
    requires s.Valid() && s.bitIndex == FRAME_BITS - 1
    requires e.level == Low && s.lastDuration > 0 && e.duration > 0
    requires Classify(s.lastDuration, e.duration) in {Zero, One}
    ensures var r := Step(s, e, clearOnSync);
      var crc := Checksum(r.state.data);
      && r.state.bitIndex == 0
      && (r.accepted <==> crc == r.state.data[CRC_INDEX] && crc != s.lastCrc)
      && r.state.lastCrc == (if r.accepted then crc else s.lastCrc)
  {
  }

  /** Only the 96th bit can accept a frame. */
  lemma AcceptOnlyOnLastBit(s: DecoderState, e: Edge, clearOnSync: bool)
    requires s.Valid() && CanDivide(s, e)
    requires Step(s, e, clearOnSync).accepted
    ensures s.bitIndex == FRAME_BITS - 1
    ensures Step(s, e, clearOnSync).state.lastCrc != s.lastCrc
  {
  }

  /** `lastCrc` moves exactly when a frame is accepted. */
  lemma LastCrcMovesIffAccepted(s: DecoderState, e: Edge, clearOnSync: bool)
    requires s.Valid() && CanDivide(s, e)
    ensures var r := Step(s, e, clearOnSync);
      r.accepted <==> r.state.lastCrc != s.lastCrc
  {
  }

  /** An accepted frame's checksum is what `lastCrc` now holds. */
  lemma AcceptRecordsChecksum(s: DecoderState, e: Edge, clearOnSync: bool)
    requires s.Valid() && CanDivide(s, e)
    ensures var r := Step(s, e, clearOnSync);
      r.accepted ==> r.state.lastCrc == Checksum(r.state.data)
  {
  }

  // ---------------------------------------------------------------------
  // The telemetry fields that logger.c and dash.c decode from an accepted
  // frame (and src/logic.cpp from the consumer's copy).

  /** The decoded fields. `rpm` holds the raw 16-bit value
      `(data[7] << 8) + data[8]`; the floating-point scale is not part of
      this model. */
  datatype Telemetry = Telemetry(
    battery: int,
    current: int,
    currentPercent: int,
    rpm: int,
    brake: bool,
    regen: bool,
    reverseMode: bool,
    speedMode: int)

  /** The zero-initialised field globals (logger.c:7-14, dash.c:20-28). */
  const NO_FIELDS: Telemetry := Telemetry(0, 0, 0, 0, false, false, false, 0)

  /** The value byte 5 takes when the vehicle is in reverse. */
  const REVERSE_SENTINEL: bv8 := 4

  /** `(data[7] << 8) + data[8]`: bytes 7 and 8 as a big-endian 16-bit
      number. */
  function RpmRaw(frame: seq<bv8>): (r: int)
    requires |frame| == FRAME_BYTES
    ensures 0 <= r < 0x1_0000
    ensures r / 256 == frame[7] as int && r % 256 == frame[8] as int
  {
    (((frame[7] as bv16) << 8) | frame[8] as bv16) as int
  }

  /** `data[4] & 0x07`: the low three bits of byte 4. */
  function SpeedModeBits(b4: bv8): (m: int)
    ensures 0 <= m <= 7
    ensures m == b4 as int % 8
  {
    (b4 & 7) as int
  }

  /** The field mapping shared by logger.c, dash.c and src/logic.cpp. */
  function DecodeTelemetry(frame: seq<bv8>): (t: Telemetry)
    requires |frame| == FRAME_BYTES
    ensures 0 <= t.battery < 256 && 0 <= t.current < 256 && 0 <= t.currentPercent < 256
    ensures 0 <= t.rpm < 0x1_0000 && 0 <= t.speedMode <= 7
  {
    Telemetry(
      battery := frame[9] as int,
      current := frame[6] as int,
      currentPercent := frame[10] as int,
      rpm := RpmRaw(frame),
      brake := BitRead(frame[4], 5),
      regen := BitRead(frame[4], 3),
      reverseMode := frame[5] == REVERSE_SENTINEL,
      speedMode := SpeedModeBits(frame[4]))
  }

  /** The fields read bytes 4 to 10 and nothing else: frames that agree
      there decode alike. */
  lemma TelemetryIgnoresOtherBytes(f: seq<bv8>, g: seq<bv8>)
    requires |f| == FRAME_BYTES && |g| == FRAME_BYTES
    requires forall i :: 4 <= i <= 10 ==> f[i] == g[i]
    ensures DecodeTelemetry(f) == DecodeTelemetry(g)
  {
    assert f[4] == g[4] && f[5] == g[5] && f[6] == g[6] && f[7] == g[7];
    assert f[8] == g[8] && f[9] == g[9] && f[10] == g[10];
  }

  /** Frames that decode alike agree on bytes 6 to 10, on bits 3 and 5 and
      the low three bits of byte 4, and on whether byte 5 is the reverse
      value: no field loses information beyond what it masks out. */
  lemma TelemetryDeterminesBytes(f: seq<bv8>, g: seq<bv8>)
    requires |f| == FRAME_BYTES && |g| == FRAME_BYTES
    requires DecodeTelemetry(f) == DecodeTelemetry(g)
    ensures forall i :: 6 <= i <= 10 ==> f[i] == g[i]
    ensures BitRead(f[4], 3) == BitRead(g[4], 3) && BitRead(f[4], 5) == BitRead(g[4], 5)
    ensures f[4] as int % 8 == g[4] as int % 8
    ensures f[5] == REVERSE_SENTINEL <==> g[5] == REVERSE_SENTINEL
  {
    assert RpmRaw(f) == RpmRaw(g);
    SameByte(f[6], g[6]);
    SameByte(f[7], g[7]);
    SameByte(f[8], g[8]);
    SameByte(f[9], g[9]);
    SameByte(f[10], g[10]);
  }

  lemma SameByte(a: bv8, b: bv8)
    requires a as int == b as int
    ensures a == b
  {
  }
}
