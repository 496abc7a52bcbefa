/** The interrupt handler `sifChange` as the firmware runs it: globals
    updated in place, the 12-byte buffer a fixed array that `bitSet`,
    `bitClear` and the zeroing loop write into, the checksum an accumulating
    XOR loop. Every method is proved to do exactly what the value-level
    `SifProtocol.Step` says, so the lemmas about `Step` and `Run` hold for
    the running code too. */
module SifDecoder {
  import opened Bits
  import opened SifProtocol

  /** The decoder globals of one firmware copy: `lastDuration`, `bitIndex`,
      `data[12]`, `lastCrc`. `clearOnSync` says whether this copy zeroes the
      buffer when it sees a sync pulse (src/main.cpp does, logger.c and
      dash.c do not). */
  class Decoder {
    var lastDuration: ULong
    var bitIndex: int
    var lastCrc: bv8
    const data: array<bv8>
    const clearOnSync: bool

    ghost predicate Valid()
      reads this
    {
      data.Length == FRAME_BYTES && -1 <= bitIndex < FRAME_BITS
    }

    /** The globals as a value. */
    function State(): (s: DecoderState)
      reads this, data
      ensures Valid() ==> s.Valid()
    {
      DecoderState(lastDuration, bitIndex, data[..], lastCrc)
    }

    /** Power-up: C zero-initialises the globals, `bitIndex` starts at -1. */
    constructor(clearOnSync: bool)
      ensures Valid() && State() == INIT && this.clearOnSync == clearOnSync
      ensures fresh(data)
    {
      lastDuration := 0;
      bitIndex := -1;
      lastCrc := 0;
      data := new bv8[FRAME_BYTES](_ => 0);
      this.clearOnSync := clearOnSync;
      new;
      assert data[..] == ZERO_FRAME;
    }

    /** `for (int i = 0; i < 11; i++) crc ^= data[i];` */
    method ComputeChecksum() returns (crc: bv8)
      requires Valid()
      ensures crc == Checksum(data[..])
    {
      crc := 0;
      for i := 0 to CRC_INDEX
        invariant crc == Xor(data[..i])
      {
        assert data[..i + 1][..i] == data[..i];
        crc := crc ^ data[i];
      }
      assert data[..CRC_INDEX] == data[..][..CRC_INDEX];
    }

    /** `for (int i = 0; i < 12; i++) data[i] = 0;` */
    method ClearBuffer()
      requires Valid()
      modifies data
      ensures data[..] == ZERO_FRAME
    {
      for i := 0 to FRAME_BYTES
        invariant forall j :: 0 <= j < i ==> data[j] == 0
      {
        data[i] := 0;
      }
    }

    /** `bitClear`/`bitSet(data[bitIndex / 8], 7 - (bitIndex % 8))`. At
        `bitIndex == -1` C addresses bit 8 of byte 0, which changes nothing. */
    method StoreBit(v: bool)
      requires Valid()
      modifies data
      ensures data[..] == WriteBit(old(data[..]), bitIndex, v)
    {
      if bitIndex >= 0 {
        var i, k := bitIndex / 8, 7 - bitIndex % 8;
        data[i] := if v then BitSet(data[i], k) else BitClear(data[i], k);
      }
    }

    /** One call of `sifChange` with the pin at `level`, `duration`
        microseconds after the previous edge; returns whether a frame was
        accepted on this call. */
    method HandleEdge(level: Level, duration: ULong) returns (accepted: bool)
      requires Valid() && CanDivide(State(), Edge(level, duration))
      modifies this, data
      ensures Valid()
      ensures var r := Step(old(State()), Edge(level, duration), clearOnSync);
        State() == r.state && accepted == r.accepted
    {
      accepted := false;
      if level == Low && lastDuration > 0 {
        SyncByQuotient(lastDuration, duration);
        var bitComplete := false;
        if lastDuration / duration >= SYNC_RATIO {
          bitIndex := 0;
          if clearOnSync {
            ClearBuffer();
          }
        } else if 2 * lastDuration > 3 * duration {
          StoreBit(false);
          bitComplete := true;
        } else if 2 * duration > 3 * lastDuration {
          StoreBit(true);
          bitComplete := true;
        }
        if bitComplete {
          bitIndex := bitIndex + 1;
          if bitIndex == FRAME_BITS {
            bitIndex := 0;
            var crc := ComputeChecksum();
            if crc == data[CRC_INDEX] && crc != lastCrc {
              lastCrc := crc;
              accepted := true;
            }
          }
        }
      }
      lastDuration := duration;
    }
  }
}
