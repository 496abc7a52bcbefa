/** src/logic.cpp: `VehicleLogic`, the ESP32 firmware's model of the
    vehicle. It takes telemetry either from a checked SIF frame or from a
    `DATA,...` line sent by the host, switches back to SIF data when the host
    has been silent for two seconds, and animates the displayed RPM toward
    the latest target. */
module Logic {
  import opened Bits
  import opened SifProtocol

  // Constants of src/logic.h.
  const MAX_RPM: int := 12000
  const MIN_RPM: int := 0
  const MAX_SPEED_MODES: int := 3
  const PYTHON_DATA_TIMEOUT: int := 2000
  const RPM_ANIMATION_SPEED: int := 1

  /** The header of a host line, and the number of fields it must carry. */
  const PYTHON_HEADER: string := "DATA,"
  const PYTHON_FIELDS: nat := 8

  /** `VehicleData` without `mph` (a floating-point function of `rpm`).
      `battery` and `voltage` are C floats, idealised as reals. */
  datatype VehicleData = VehicleData(
    battery: real,
    current: int,
    voltage: real,
    rpm: int,
    regen: bool,
    brake: bool,
    reverseMode: bool,
    speedMode: int,
    usingSifData: bool,
    displayedRpm: int)

  /** What the constructor stores. */
  const INITIAL_DATA := VehicleData(0.0, 0, 0.0, 0, false, false, false, 1, true, 0)

  /** `isValidSpeedMode`: modes 1..3 exist. */
  predicate IsValidSpeedMode(mode: int)
    ensures IsValidSpeedMode(mode) <==> Constrain(mode, 1, MAX_SPEED_MODES) == mode
  {
    mode >= 1 && mode <= MAX_SPEED_MODES
  }

  /** Clamping into [1, MAX_SPEED_MODES], as `parsePythonData` does, always
      yields a valid mode, so its validity check never rejects. */
  lemma ClampedSpeedModeIsValid(x: int)
    ensures IsValidSpeedMode(Constrain(x, 1, MAX_SPEED_MODES))
    ensures forall m :: IsValidSpeedMode(m) <==> m in {1, 2, 3}
  {
  }

  /** The SIF path takes the low three bits of byte 4 unchecked: modes 0 and
      4..7 get through `parseSifData`. */
  lemma SifSpeedModeIsUnchecked()
    ensures !IsValidSpeedMode(SpeedModeBits(0x00))
    ensures !IsValidSpeedMode(SpeedModeBits(0x04))
    ensures forall b: bv8 :: IsValidSpeedMode(SpeedModeBits(b)) <==> SpeedModeBits(b) in {1, 2, 3}
  {
  }

  // ---------------------------------------------------------------------
  // The RPM animation step.

  /** One step of `updateRpmAnimation`: move by `rpmDiff / RPM_ANIMATION_SPEED`
      plus one in the direction of the target, or snap to the target when
      within one; then clamp to [MIN_RPM, MAX_RPM]. */
  function AnimateRpm(displayed: int, target: int): (r: int)
    ensures MIN_RPM <= r <= MAX_RPM
    ensures Abs(target - displayed) <= 1 ==> r == Constrain(target, MIN_RPM, MAX_RPM)
    ensures Abs(target - displayed) > 1 ==>
      r == Constrain(if target > displayed then target + 1 else target - 1, MIN_RPM, MAX_RPM)
  {
    var rpmDiff := target - displayed;
    var next := if Abs(rpmDiff) > 1 then displayed + TruncDiv(rpmDiff, RPM_ANIMATION_SPEED) + (if rpmDiff > 0 then 1 else -1)
                else target;
    Constrain(next, MIN_RPM, MAX_RPM)
  }

  /** With a target inside [0, 12000] the display reaches it in at most two
      steps, and then stays there. */
  lemma AnimationSettlesInTwoSteps(displayed: int, target: int)
    requires MIN_RPM <= target <= MAX_RPM
    ensures AnimateRpm(AnimateRpm(displayed, target), target) == target
    ensures AnimateRpm(target, target) == target
  {
    var d1 := AnimateRpm(displayed, target);
    assert Abs(target - d1) <= 1;
  }

  /** With `RPM_ANIMATION_SPEED == 1` a far-away target strictly inside the
      range is overshot by exactly one RPM on the first step. */
  lemma AnimationOvershootsByOne(displayed: int, target: int)
    requires MIN_RPM < target < MAX_RPM && Abs(target - displayed) > 1
    ensures var d1 := AnimateRpm(displayed, target);
      d1 != target && Abs(d1 - target) == 1
      && (target > displayed <==> d1 > target)
  {
  }

  /** `parseSifData` does not clamp `rpm`; a target above the range pins the
      display at MAX_RPM, one below it at MIN_RPM. */
  lemma AnimationPinsOutOfRangeTarget(displayed: int, target: int)
    ensures target > MAX_RPM ==> AnimateRpm(displayed, target) == MAX_RPM
    ensures target < MIN_RPM ==> AnimateRpm(displayed, target) == MIN_RPM
  {
  }

  // ---------------------------------------------------------------------
  // Splitting a host line.

  /** The fields the loop of `parsePythonData` cuts out of `s`, scanning
      from index `i` with the current field starting at `start`, before the
      cap of 8 applies. A field ends before a comma; the field that reaches
      the last character runs to the end of the line, so a trailing comma
      stays in the last field. */
  function Scan(s: string, start: nat, i: nat): (fields: seq<string>)
    requires start <= i <= |s|
    ensures |fields| <= |s| - i
    decreases |s| - i
  {
    if i == |s| then []
    else if s[i] == ',' || i == |s| - 1 then
      [s[start .. if i == |s| - 1 then i + 1 else i]] + Scan(s, i + 1, i + 1)
    else
      Scan(s, start, i + 1)
  }

  /** The at most 8 fields after `DATA,`. */
  function PythonFields(s: string): (fields: seq<string>)
    requires |s| >= |PYTHON_HEADER|
    ensures |fields| <= PYTHON_FIELDS
    ensures fields <= Scan(s, |PYTHON_HEADER|, |PYTHON_HEADER|)
    ensures |fields| < PYTHON_FIELDS ==> fields == Scan(s, |PYTHON_HEADER|, |PYTHON_HEADER|)
  {
    var all := Scan(s, |PYTHON_HEADER|, |PYTHON_HEADER|);
    if |all| <= PYTHON_FIELDS then all else all[..PYTHON_FIELDS]
  }

  /** The loop at src/logic.cpp:28-38: `values[]`, `valueIndex` (here the
      length of `values`) and `startPos`. */
  method SplitFields(input: string) returns (values: seq<string>)
    requires |input| >= |PYTHON_HEADER|
    ensures values == PythonFields(input)
  {
    values := [];
    var startPos: nat := |PYTHON_HEADER|;
    var i := startPos;
    ghost var all := Scan(input, |PYTHON_HEADER|, |PYTHON_HEADER|);
    while i < |input| && |values| < PYTHON_FIELDS
      invariant startPos <= i <= |input|
      invariant |values| <= PYTHON_FIELDS
      invariant values + Scan(input, startPos, i) == all
      decreases |input| - i
    {
      if input[i] == ',' || i == |input| - 1 {
        var field := input[startPos .. i + if i == |input| - 1 then 1 else 0];
        assert Scan(input, startPos, i) == [field] + Scan(input, i + 1, i + 1);
        values := values + [field];
        startPos := i + 1;
      } else {
        assert Scan(input, startPos, i) == Scan(input, startPos, i + 1);
      }
      i := i + 1;
    }
    if |values| == PYTHON_FIELDS {
      assert all[..PYTHON_FIELDS] == values;
    } else {
      assert Scan(input, startPos, i) == [];
    }
  }

  /** Fields joined with commas: what a well-behaved host sends after
      `DATA,`. */
  function JoinFields(fields: seq<string>): (s: string)
    ensures |fields| == 1 ==> s == fields[0]
  {
    if |fields| == 0 then ""
    else if |fields| == 1 then fields[0]
    else fields[0] + "," + JoinFields(fields[1..])
  }

  /** Fields the host can send so that they come back unchanged: no comma
      inside any, and a non-empty last one (a trailing comma would be kept
      in the last field). */
  predicate Sendable(fields: seq<string>)
  {
    |fields| > 0 && fields[|fields| - 1] != [] &&
    forall i, k :: 0 <= i < |fields| && 0 <= k < |fields[i]| ==> fields[i][k] != ','
  }

  /** Characters without a comma, short of the last one, do not end a
      field. */
  lemma {:induction false} ScanSkips(s: string, start: nat, i: nat, j: nat)
    requires start <= i <= j < |s|
    requires forall k :: i <= k < j ==> s[k] != ','
    ensures Scan(s, start, i) == Scan(s, start, j)
    decreases j - i
  {
    if i < j {
      ScanSkips(s, start, i + 1, j);
    }
  }

  /** A field that ends at a comma before the last character. */
  lemma ScanFieldAtComma(s: string, start: nat, j: nat)
    requires start <= j < |s| - 1 && s[j] == ','
    requires forall k :: start <= k < j ==> s[k] != ','
    ensures Scan(s, start, start) == [s[start..j]] + Scan(s, j + 1, j + 1)
  {
    ScanSkips(s, start, start, j);
  }

  /** A field that reaches the last character runs to the end of the line,
      even when that last character is a comma. */
  lemma ScanFieldAtEnd(s: string, start: nat)
    requires start < |s|
    requires forall k :: start <= k < |s| - 1 ==> s[k] != ','
    ensures Scan(s, start, start) == [s[start..]]
  {
    ScanSkips(s, start, start, |s| - 1);
    assert Scan(s, |s|, |s|) == [];
    assert s[start .. |s|] == s[start..];
  }

  lemma SendableTail(fields: seq<string>)
    requires Sendable(fields) && |fields| > 1
    ensures Sendable(fields[1..])
  {
    var rest := fields[1..];
    forall i, k | 0 <= i < |rest| && 0 <= k < |rest[i]| ensures rest[i][k] != ',' {
      assert rest[i] == fields[i + 1];
    }
  }

  /** Splitting inverts joining, from any offset. */
  lemma {:induction false} ScanJoin(prefix: string, fields: seq<string>)
    requires Sendable(fields)
    ensures Scan(prefix + JoinFields(fields), |prefix|, |prefix|) == fields
    decreases |fields|
  {
    var s := prefix + JoinFields(fields);
    var f0 := fields[0];
    if |fields| == 1 {
      assert s[|prefix|..] == f0;
      ScanFieldAtEnd(s, |prefix|);
    } else {
      var rest := fields[1..];
      SendableTail(fields);
      var prefix' := prefix + f0 + ",";
      assert s == prefix' + JoinFields(rest);
      assert JoinFields(rest) != [] by {
        if |rest| == 1 { assert JoinFields(rest) == rest[0]; }
      }
      var j := |prefix| + |f0|;
      assert s[|prefix| .. j] == f0;
      ScanFieldAtComma(s, |prefix|, j);
      ScanJoin(prefix', rest);
    }
  }

  /** A line built from sendable fields yields them back, up to the first
      eight. */
  lemma PythonFieldsOfJoin(fields: seq<string>)
    requires Sendable(fields)
    ensures var fs := PythonFields(PYTHON_HEADER + JoinFields(fields));
      fs == fields[..if |fields| < PYTHON_FIELDS then |fields| else PYTHON_FIELDS]
  {
    ScanJoin(PYTHON_HEADER, fields);
  }

  /** A trailing comma ends up inside the last field: `DATA,` followed by a
      text whose only comma is its last character yields that text, comma
      included, as the single field (`DATA,7,` gives `7,`). */
  lemma TrailingCommaStaysInField(t: string)
    requires |t| > 0 && t[|t| - 1] == ','
    requires forall k :: 0 <= k < |t| - 1 ==> t[k] != ','
    ensures PythonFields(PYTHON_HEADER + t) == [t]
  {
    var s := PYTHON_HEADER + t;
    var h := |PYTHON_HEADER|;
    forall k | h <= k < |s| - 1 ensures s[k] != ',' {
      assert s[k] == t[k - h];
    }
    ScanFieldAtEnd(s, h);
    assert s[h..] == t;
  }

  /** The vehicle fields once a host line with at least 8 fields has been
      read: battery clamped to [0, 100], rpm to [MIN_RPM, MAX_RPM], the speed
      mode to [1, 3]; the flags are set iff their field reads as 1. */
  function ApplyHostFields(d: VehicleData, v: seq<string>, toInt: string -> int, toFloat: string -> real): (r: VehicleData)
    requires |v| >= PYTHON_FIELDS
    ensures 0.0 <= r.battery <= 100.0 && MIN_RPM <= r.rpm <= MAX_RPM && IsValidSpeedMode(r.speedMode)
    ensures r.reverseMode <==> toInt(v[3]) == 1
    ensures r.brake <==> toInt(v[4]) == 1
    ensures r.regen <==> toInt(v[5]) == 1
    ensures r.usingSifData == d.usingSifData && r.displayedRpm == d.displayedRpm
    ensures r.rpm == Constrain(toInt(v[1]), MIN_RPM, MAX_RPM)
    ensures r.battery == ConstrainReal(toFloat(v[0]), 0.0, 100.0)
    ensures r.speedMode == Constrain(toInt(v[2]), 1, MAX_SPEED_MODES)
    ensures r.current == toInt(v[6]) && r.voltage == toFloat(v[7])
  {
    var newRpm := Constrain(toInt(v[1]), MIN_RPM, MAX_RPM);
    var newSpeedMode := Constrain(toInt(v[2]), 1, MAX_SPEED_MODES);
    d.(battery := ConstrainReal(toFloat(v[0]), 0.0, 100.0),
       rpm := newRpm,
       speedMode := if IsValidSpeedMode(newSpeedMode) then newSpeedMode else d.speedMode,
       reverseMode := toInt(v[3]) == 1,
       brake := toInt(v[4]) == 1,
       regen := toInt(v[5]) == 1,
       current := toInt(v[6]),
       voltage := toFloat(v[7]))
  }

  /** The vehicle fields once a checked SIF frame has been read: the
      telemetry fields of the frame, the load voltage as byte 1 times 0.75,
      and the display jumps straight to the new RPM (no animation). */
  function WithSifFrame(d: VehicleData, sif: seq<bv8>): (r: VehicleData)
    requires |sif| == FRAME_BYTES
    ensures var t := DecodeTelemetry(sif);
      && r.battery == t.battery as real && r.current == t.current && r.rpm == t.rpm
      && r.brake == t.brake && r.regen == t.regen && r.reverseMode == t.reverseMode
      && r.speedMode == t.speedMode
    ensures r.displayedRpm == r.rpm && 0 <= r.rpm < 0x10000
    ensures r.voltage == (sif[1] as int as real) * 0.75
    ensures 0.0 <= r.voltage <= 191.25 && 0.0 <= r.battery <= 255.0
    ensures r.usingSifData == d.usingSifData
  {
    var t := DecodeTelemetry(sif);
    d.(battery := t.battery as real, current := t.current, rpm := t.rpm,
       displayedRpm := t.rpm, voltage := (sif[1] as int as real) * 0.75,
       brake := t.brake, regen := t.regen, reverseMode := t.reverseMode,
       speedMode := t.speedMode)
  }

  /** The class: `data`, `lastPythonData` and `targetRpm`. */
  class VehicleLogic {
    var data: VehicleData
    var lastPythonData: ULong
    var targetRpm: int

    constructor()
      ensures data == INITIAL_DATA && lastPythonData == 0 && targetRpm == 0
    {
      data := INITIAL_DATA;
      lastPythonData := 0;
      targetRpm := 0;
    }

    /** A line from the host at time `now` (milliseconds); `toInt` and
        `toFloat` are Arduino's `String` conversions. */
    method ParsePythonData(input: string, now: ULong, toInt: string -> int, toFloat: string -> real)
      modifies this
      ensures !StartsWith(input, PYTHON_HEADER) ==>
        data == old(data) && lastPythonData == old(lastPythonData) && targetRpm == old(targetRpm)
      ensures StartsWith(input, PYTHON_HEADER) ==>
        var v := PythonFields(input);
        var d := old(data).(usingSifData := false);
        && lastPythonData == now
        && data == (if |v| >= PYTHON_FIELDS then ApplyHostFields(d, v, toInt, toFloat) else d)
        && targetRpm == (if |v| >= PYTHON_FIELDS then data.rpm else old(targetRpm))
    {
      if StartsWith(input, PYTHON_HEADER) {
        data := data.(usingSifData := false);
        lastPythonData := now;
        var values := SplitFields(input);
        if |values| >= PYTHON_FIELDS {
          data := data.(battery := ConstrainReal(toFloat(values[0]), 0.0, 100.0));
          var newRpm := Constrain(toInt(values[1]), MIN_RPM, MAX_RPM);
          data := data.(rpm := newRpm);
          targetRpm := newRpm;
          var newSpeedMode := Constrain(toInt(values[2]), 1, MAX_SPEED_MODES);
          if IsValidSpeedMode(newSpeedMode) {
            data := data.(speedMode := newSpeedMode);
          }
          data := data.(reverseMode := toInt(values[3]) == 1);
          data := data.(brake := toInt(values[4]) == 1);
          data := data.(regen := toInt(values[5]) == 1);
          data := data.(current := toInt(values[6]));
          data := data.(voltage := toFloat(values[7]));
        }
      }
    }

    /** A checked SIF frame, copied out of the decoder's buffer. */
    method ParseSifData(sifData: seq<bv8>)
      requires |sifData| == FRAME_BYTES
      modifies this
      ensures data == WithSifFrame(old(data), sifData)
      ensures targetRpm == data.rpm && lastPythonData == old(lastPythonData)
    {
      data := data.(battery := sifData[9] as int as real);
      data := data.(current := sifData[6] as int);
      data := data.(rpm := RpmRaw(sifData));
      targetRpm := data.rpm;
      data := data.(displayedRpm := data.rpm);
      data := data.(voltage := (sifData[1] as int as real) * 0.75);
      data := data.(brake := BitRead(sifData[4], 5));
      data := data.(regen := BitRead(sifData[4], 3));
      data := data.(reverseMode := sifData[5] == REVERSE_SENTINEL);
      data := data.(speedMode := SpeedModeBits(sifData[4]));
    }

    /** Switch back to SIF data once the host has been silent for more than
        PYTHON_DATA_TIMEOUT ms (unsigned, wrapping clock), then animate. */
    method UpdateDataSource(now: ULong)
      modifies this
      ensures data == old(data).(
        usingSifData := old(data.usingSifData) || ElapsedSince(now, old(lastPythonData)) > PYTHON_DATA_TIMEOUT,
        displayedRpm := AnimateRpm(old(data.displayedRpm), old(targetRpm)))
      ensures lastPythonData == old(lastPythonData) && targetRpm == old(targetRpm)
    {
      if ElapsedSince(now, lastPythonData) > PYTHON_DATA_TIMEOUT {
        data := data.(usingSifData := true);
      }
      UpdateRpmAnimation();
    }

    method UpdateRpmAnimation()
      modifies this
      ensures data == old(data).(displayedRpm := AnimateRpm(old(data.displayedRpm), targetRpm))
      ensures MIN_RPM <= data.displayedRpm <= MAX_RPM
      ensures lastPythonData == old(lastPythonData) && targetRpm == old(targetRpm)
    {
      var rpmDiff := targetRpm - data.displayedRpm;
      if Abs(rpmDiff) > 1 {
        data := data.(displayedRpm := data.displayedRpm + TruncDiv(rpmDiff, RPM_ANIMATION_SPEED) + (if rpmDiff > 0 then 1 else -1));
      } else {
        data := data.(displayedRpm := targetRpm);
      }
      data := data.(displayedRpm := Constrain(data.displayedRpm, MIN_RPM, MAX_RPM));
    }
  }
}
