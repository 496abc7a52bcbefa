/** logger.c: the standalone SIF data logger. Its interrupt handler keeps
    the buffer across sync pulses, decodes the telemetry fields of every
    accepted frame into globals and logs them at once. The log is modelled
    as the sequence of records `logData()` has been called with. */
module Logger {
  import opened Bits
  import opened SifProtocol
  import opened SifDecoder

  /** What the log must look like: every record was decoded from a frame
      whose checksum matched; no two consecutive logged frames share a
      checksum; the last one's checksum is `lastCrc` (still 0 while nothing
      has been logged) and its record holds the current field globals. */
  ghost predicate LogConsistent(frames: seq<seq<bv8>>, log: seq<Telemetry>, fields: Telemetry, lastCrc: bv8)
  {
    && |frames| == |log|
    && (forall i :: 0 <= i < |frames| ==>
          |frames[i]| == FRAME_BYTES && ChecksumMatches(frames[i]) && log[i] == DecodeTelemetry(frames[i]))
    && (forall i :: 0 < i < |frames| ==> Checksum(frames[i]) != Checksum(frames[i - 1]))
    && (|frames| == 0 ==> lastCrc == 0 && fields == NO_FIELDS)
    && (|frames| > 0 ==> lastCrc == Checksum(frames[|frames| - 1]) && fields == log[|log| - 1])
  }

  /** Logging a checked frame with a new checksum keeps the log consistent. */
  lemma LogAppendKeepsConsistent(frames: seq<seq<bv8>>, log: seq<Telemetry>, fields: Telemetry, lastCrc: bv8, f: seq<bv8>)
    requires LogConsistent(frames, log, fields, lastCrc)
    requires |f| == FRAME_BYTES && ChecksumMatches(f) && Checksum(f) != lastCrc
    ensures LogConsistent(frames + [f], log + [DecodeTelemetry(f)], DecodeTelemetry(f), Checksum(f))
  {
  }

  class SifLogger {
    const decoder: Decoder
    var fields: Telemetry
    var log: seq<Telemetry>
    /** The frames the logged records were decoded from. */
    ghost var frames: seq<seq<bv8>>

    ghost predicate Valid()
      reads this, decoder
    {
      decoder.Valid() && !decoder.clearOnSync && LogConsistent(frames, log, fields, decoder.lastCrc)
    }

    constructor()
      ensures Valid() && fresh(decoder) && fresh(decoder.data)
      ensures decoder.State() == INIT && fields == NO_FIELDS && log == []
    {
      decoder := new Decoder(false);
      fields := NO_FIELDS;
      log := [];
      frames := [];
    }

    /** `logData()`: the record goes to the serial log. */
    method LogData()
      modifies this
      ensures log == old(log) + [fields]
      ensures fields == old(fields) && frames == old(frames)
    {
      log := log + [fields];
    }

    /** `sifChange` (logger.c:113-173): on an accepted frame the fields are
        decoded from the buffer and logged; otherwise fields and log are
        untouched. */
    method SifChange(level: Level, duration: ULong)
      requires Valid() && CanDivide(decoder.State(), Edge(level, duration))
      modifies this, decoder, decoder.data
      ensures Valid()
      ensures var r := Step(old(decoder.State()), Edge(level, duration), false);
        && decoder.State() == r.state
        && (r.accepted ==> fields == DecodeTelemetry(r.state.data) && log == old(log) + [fields])
        && (!r.accepted ==> fields == old(fields) && log == old(log))
    {
      ghost var s0 := decoder.State();
      ghost var r := Step(s0, Edge(level, duration), false);
      LastCrcMovesIffAccepted(s0, Edge(level, duration), false);
      AcceptRecordsChecksum(s0, Edge(level, duration), false);
      var accepted := decoder.HandleEdge(level, duration);
      if accepted {
        LogAppendKeepsConsistent(frames, log, fields, s0.lastCrc, r.state.data);
        fields := DecodeTelemetry(decoder.data[..]);
        LogData();
        frames := frames + [decoder.data[..]];
      }
    }
  }
}
