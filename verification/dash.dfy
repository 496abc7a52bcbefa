/** dash.c: the dashboard firmware. Its interrupt handler keeps the buffer
    across sync pulses and copies the telemetry of an accepted frame into
    the field globals unless the built-in test cycle owns them. Besides the
    handler it has serial commands that set fields by hand, a thirteen-step
    test cycle run once a second, and a fast RPM interpolation. */
module Dash {
  import opened Bits
  import opened SifProtocol
  import opened SifDecoder

  /** The last test step; the cycle has LAST_TEST_STEP + 1 steps. */
  const LAST_TEST_STEP: int := 12
  /** Interval between test steps, in milliseconds. */
  const TEST_INTERVAL: int := 1000
  /** Ceiling of the `rpm=` command, and the highest RPM the test cycle sets. */
  const COMMAND_MAX_RPM: int := 8000
  const TEST_MAX_RPM: int := 8200
  /** The RPM sweep of step 11: +200 per visit, back to 0 past 6000. */
  const SWEEP_STEP: int := 200
  const SWEEP_MAX: int := 6000

  // ---------------------------------------------------------------------
  // The RPM interpolation of `updateRpm`.

  /** One interpolation step: a third of the distance (truncated) plus two
      toward the target, or snap to it when within one. */
  function DashRpmStep(displayed: int, target: int): (r: int)
    ensures Abs(target - displayed) <= 1 ==> r == target
    ensures target - displayed > 1 ==> displayed < r <= target
    ensures target - displayed < -1 ==> target <= r < displayed
  {
    var rpmDiff := target - displayed;
    if Abs(rpmDiff) > 1 then
      displayed + TruncDiv(rpmDiff, 3) + (if rpmDiff > 0 then 2 else -2)
    else
      target
  }

  /** The displayed RPM after `n` calls of `updateRpm` with a fixed target. */
  function DashRpmAfter(displayed: int, target: int, n: nat): int
    decreases n
  {
    if n == 0 then displayed else DashRpmAfter(DashRpmStep(displayed, target), target, n - 1)
  }

  /** Each step closes the gap by at least one and never overshoots, so the
      display reaches the target within `|target - displayed|` steps. */
  lemma {:induction false} DashRpmConverges(displayed: int, target: int, n: nat)
    ensures Abs(target - DashRpmAfter(displayed, target, n)) <= if n >= Abs(target - displayed) then 0 else Abs(target - displayed) - n
    ensures n >= Abs(target - displayed) ==> DashRpmAfter(displayed, target, n) == target
    decreases n
  {
    if n > 0 {
      var d1 := DashRpmStep(displayed, target);
      assert Abs(target - d1) <= Abs(target - displayed) - 1 || d1 == target;
      DashRpmConverges(d1, target, n - 1);
    }
  }

  // ---------------------------------------------------------------------
  // The test cycle.

  /** `testStep` after a call of `runTestCycle`: the next step, 12 wraps to
      0, and an out-of-range step (the `default` case) restarts at 0. */
  function NextTestStep(step: int): (r: int)
    ensures 0 <= r <= LAST_TEST_STEP
    ensures 0 <= step < LAST_TEST_STEP ==> r == step + 1
    ensures (step == LAST_TEST_STEP || step < 0 || step > LAST_TEST_STEP) ==> r == 0
  {
    var s := if 0 <= step <= LAST_TEST_STEP then step else -1;
    if s + 1 > LAST_TEST_STEP then 0 else s + 1
  }

  function TestStepAfter(step: int, n: nat): int
    decreases n
  {
    if n == 0 then step else TestStepAfter(NextTestStep(step), n - 1)
  }

  /** From any step in the cycle, `n` calls advance it by `n` modulo 13. */
  lemma {:induction false} TestCycleAdvances(step: int, n: nat)
    requires 0 <= step <= LAST_TEST_STEP
    ensures TestStepAfter(step, n) == (step + n) % (LAST_TEST_STEP + 1)
    decreases n
  {
    if n > 0 {
      TestCycleAdvances(NextTestStep(step), n - 1);
    }
  }

  /** Thirteen calls come back to the same step. */
  lemma TestCycleHasPeriod13(step: int)
    requires 0 <= step <= LAST_TEST_STEP
    ensures TestStepAfter(step, LAST_TEST_STEP + 1) == step
    ensures forall n: nat :: 0 < n < LAST_TEST_STEP + 1 ==> TestStepAfter(step, n) != step
  {
    TestCycleAdvances(step, LAST_TEST_STEP + 1);
    forall n: nat | 0 < n < LAST_TEST_STEP + 1 ensures TestStepAfter(step, n) != step {
      TestCycleAdvances(step, n);
    }
  }

  /** `sweepRpm` after step 11. */
  function NextSweep(sweep: int): (r: int)
    ensures 0 <= sweep <= SWEEP_MAX && sweep % SWEEP_STEP == 0 ==> 0 <= r <= SWEEP_MAX && r % SWEEP_STEP == 0
    ensures sweep + SWEEP_STEP <= SWEEP_MAX ==> r == sweep + SWEEP_STEP
    ensures sweep + SWEEP_STEP > SWEEP_MAX ==> r == 0
  {
    if sweep + SWEEP_STEP > SWEEP_MAX then 0 else sweep + SWEEP_STEP
  }

  /** `modeTest` after step 12: 1, 2, 3, 1, ... */
  function NextModeTest(mode: int): (r: int)
    requires 1 <= mode <= 3
    ensures 1 <= r <= 3
    ensures 1 <= mode < 3 ==> r == mode + 1
    ensures mode == 3 ==> r == 1
  {
    if mode + 1 > 3 then 1 else mode + 1
  }

  /** The field values the test cycle stages: RPM in [0, 8200], speed mode
      in [1, 3], battery in [0, 100]. */
  predicate StagedInRange(t: Telemetry)
  {
    0 <= t.rpm <= TEST_MAX_RPM && 1 <= t.speedMode <= 3 && 0 <= t.battery <= 100
  }

  /** The field globals after test step `step`, given the static `sweepRpm`
      and `modeTest` before the call. */
  function TestFields(step: int, t: Telemetry, sweep: int, mode: int): (r: Telemetry)
    ensures r.current == t.current && r.currentPercent == t.currentPercent
    ensures step == 0 ==> StagedInRange(r) && !r.reverseMode && !r.brake && !r.regen
    ensures 1 <= mode <= 3 && 0 <= sweep <= SWEEP_MAX && StagedInRange(t) ==> StagedInRange(r)
    ensures step == 11 ==> r.rpm == NextSweep(sweep) && !r.brake && !r.regen
    ensures step == 12 ==> r.speedMode == mode && r.rpm == 3000
  {
    match step
    case 0 => t.(rpm := 0, battery := 85, speedMode := 1, reverseMode := false, brake := false, regen := false)
    case 1 => t.(rpm := 1500)
    case 2 => t.(rpm := 3000, speedMode := 2)
    case 3 => t.(rpm := 5000, speedMode := 3)
    case 4 => t.(rpm := 8200)
    case 5 => t.(rpm := 800, reverseMode := true, speedMode := 1)
    case 6 => t.(reverseMode := false, rpm := 2000, battery := 15)
    case 7 => t.(battery := 45)
    case 8 => t.(battery := 90)
    case 10 => t.(rpm := 1000, brake := true, regen := true)
    case 11 => t.(rpm := NextSweep(sweep), brake := false, regen := false)
    case 12 => t.(speedMode := mode, rpm := 3000)
    case _ => t
  }

  /** The value step 0 or step 9 writes into byte 1 of the frame buffer (the
      load voltage, 97 * 0.75 and 80 * 0.75 volts). */
  function TestVoltageByte(step: int): (b: Option<bv8>)
    ensures b.Some? <==> step == 0 || step == 9
  {
    if step == 0 then Some(97) else if step == 9 then Some(80) else None
  }

  datatype Option<T> = None | Some(value: T)

  class Dashboard {
    const decoder: Decoder
    var fields: Telemetry
    var newDataAvailable: bool
    var displayedRpm: int
    var targetRpm: int
    var testMode: bool
    var testTimer: ULong
    var testStep: int
    /** The static locals of `runTestCycle`. */
    var sweepRpm: int
    var modeTest: int

    ghost predicate Valid()
      reads this, decoder
    {
      && decoder.Valid() && !decoder.clearOnSync
      && 0 <= sweepRpm <= SWEEP_MAX && sweepRpm % SWEEP_STEP == 0
      && 1 <= modeTest <= 3
      && 0 <= testStep <= LAST_TEST_STEP
    }

    constructor()
      ensures Valid() && fresh(decoder) && fresh(decoder.data)
      ensures decoder.State() == INIT && fields == NO_FIELDS && !newDataAvailable
      ensures displayedRpm == 0 && targetRpm == 0 && !testMode && testTimer == 0 && testStep == 0
      ensures sweepRpm == 0 && modeTest == 1
    {
      decoder := new Decoder(false);
      fields := NO_FIELDS;
      newDataAvailable := false;
      displayedRpm := 0;
      targetRpm := 0;
      testMode := false;
      testTimer := 0;
      testStep := 0;
      sweepRpm := 0;
      modeTest := 1;
    }

    /** `sifChange` (dash.c:420-470): an accepted frame raises
        `newDataAvailable`, and overwrites the fields only outside test
        mode. */
    method SifChange(level: Level, duration: ULong)
      requires Valid() && CanDivide(decoder.State(), Edge(level, duration))
      modifies this, decoder, decoder.data
      ensures Valid()
      ensures var r := Step(old(decoder.State()), Edge(level, duration), false);
        && decoder.State() == r.state
        && newDataAvailable == (old(newDataAvailable) || r.accepted)
        && fields == (if r.accepted && !testMode then DecodeTelemetry(r.state.data) else old(fields))
      ensures testMode == old(testMode) && testStep == old(testStep) && testTimer == old(testTimer)
      ensures displayedRpm == old(displayedRpm) && targetRpm == old(targetRpm)
      ensures sweepRpm == old(sweepRpm) && modeTest == old(modeTest)
    {
      var accepted := decoder.HandleEdge(level, duration);
      if accepted {
        if !testMode {
          fields := DecodeTelemetry(decoder.data[..]);
        }
        newDataAvailable := true;
      }
    }

    /** The serial commands of `loop()` (dash.c:60-99), read at time `now`,
        with `toInt` for Arduino's `String::toInt`. `help` and unknown
        commands change nothing. */
    method HandleCommand(command: string, now: ULong, toInt: string -> int)
      requires Valid()
      modifies this
      ensures Valid()
      ensures command == "test" ==> testMode && testStep == 0 && testTimer == now && fields == old(fields)
      ensures command == "stop" ==> !testMode && testStep == old(testStep) && fields == old(fields)
      ensures StartsWith(command, "rpm=") ==>
        fields == old(fields).(rpm := Constrain(toInt(command[4..]), 0, COMMAND_MAX_RPM))
      ensures StartsWith(command, "mode=") ==>
        fields == old(fields).(speedMode := Constrain(toInt(command[5..]), 1, 3))
      ensures command == "reverse" ==> fields == old(fields).(reverseMode := !old(fields.reverseMode))
      ensures StartsWith(command, "battery=") ==>
        fields == old(fields).(battery := Constrain(toInt(command[8..]), 0, 100))
      ensures (command !in {"test", "stop", "reverse"} && !StartsWith(command, "rpm=")
               && !StartsWith(command, "mode=") && !StartsWith(command, "battery=")) ==> fields == old(fields)
      ensures command != "test" ==>
        testMode == (old(testMode) && command != "stop") && testStep == old(testStep) && testTimer == old(testTimer)
      ensures newDataAvailable == old(newDataAvailable)
      ensures displayedRpm == old(displayedRpm) && targetRpm == old(targetRpm)
      ensures sweepRpm == old(sweepRpm) && modeTest == old(modeTest)
    {
      if command == "test" {
        testMode := true;
        testStep := 0;
        testTimer := now;
      } else if command == "stop" {
        testMode := false;
      } else if StartsWith(command, "rpm=") {
        assert command[0] == 'r' && command[1] == 'p';
        fields := fields.(rpm := Constrain(toInt(command[4..]), 0, COMMAND_MAX_RPM));
      } else if StartsWith(command, "mode=") {
        assert command[0] == 'm';
        fields := fields.(speedMode := Constrain(toInt(command[5..]), 1, 3));
      } else if command == "reverse" {
        assert command[0] == 'r' && command[1] == 'e';
        fields := fields.(reverseMode := !fields.reverseMode);
      } else if StartsWith(command, "battery=") {
        assert command[0] == 'b';
        fields := fields.(battery := Constrain(toInt(command[8..]), 0, 100));
      }
    }

    /** `runTestCycle` (dash.c:315-418): stage the fields of the current step
        (and byte 1 of the buffer on steps 0 and 9), then move to the next
        step. */
    method RunTestCycle()
      requires Valid()
      modifies this, decoder.data
      ensures Valid()
      ensures fields == TestFields(old(testStep), old(fields), old(sweepRpm), old(modeTest))
      ensures testStep == NextTestStep(old(testStep))
      ensures sweepRpm == (if old(testStep) == 11 then NextSweep(old(sweepRpm)) else old(sweepRpm))
      ensures modeTest == (if old(testStep) == 12 then NextModeTest(old(modeTest)) else old(modeTest))
      ensures var b := TestVoltageByte(old(testStep));
        decoder.data[..] == if b.Some? then old(decoder.data[..])[1 := b.value] else old(decoder.data[..])
      ensures decoder.State().bitIndex == old(decoder.State().bitIndex)
      ensures decoder.State().lastCrc == old(decoder.State().lastCrc)
      ensures testMode == old(testMode) && testTimer == old(testTimer) && newDataAvailable == old(newDataAvailable)
      ensures displayedRpm == old(displayedRpm) && targetRpm == old(targetRpm)
    {
      match testStep {
      case 0 =>
        fields := fields.(rpm := 0, battery := 85, speedMode := 1, reverseMode := false, brake := false, regen := false);
        decoder.data[1] := 97;
      case 1 =>
        fields := fields.(rpm := 1500);
      case 2 =>
        fields := fields.(rpm := 3000, speedMode := 2);
      case 3 =>
        fields := fields.(rpm := 5000, speedMode := 3);
      case 4 =>
        fields := fields.(rpm := 8200);
      case 5 =>
        fields := fields.(rpm := 800, reverseMode := true, speedMode := 1);
      case 6 =>
        fields := fields.(reverseMode := false, rpm := 2000, battery := 15);
      case 7 =>
        fields := fields.(battery := 45);
      case 8 =>
        fields := fields.(battery := 90);
      case 9 =>
        decoder.data[1] := 80;
      case 10 =>
        fields := fields.(rpm := 1000, brake := true, regen := true);
      case 11 =>
        sweepRpm := sweepRpm + SWEEP_STEP;
        if sweepRpm > SWEEP_MAX {
          sweepRpm := 0;
        }
        fields := fields.(rpm := sweepRpm, brake := false, regen := false);
      case 12 =>
        fields := fields.(speedMode := modeTest);
        modeTest := modeTest + 1;
        if modeTest > 3 {
          modeTest := 1;
        }
        fields := fields.(rpm := 3000);
      case _ =>
        testStep := -1;
      }
      testStep := testStep + 1;
      if testStep > LAST_TEST_STEP {
        testStep := 0;
      }
    }

    /** `updateRpm` (dash.c:178-198) without its drawing: the target follows
        the `rpm` global and the display moves one interpolation step. */
    method UpdateRpm()
      modifies this
      ensures targetRpm == old(fields.rpm)
      ensures displayedRpm == DashRpmStep(old(displayedRpm), targetRpm)
      ensures fields == old(fields) && testStep == old(testStep) && testMode == old(testMode)
      ensures testTimer == old(testTimer) && newDataAvailable == old(newDataAvailable)
      ensures sweepRpm == old(sweepRpm) && modeTest == old(modeTest)
    {
      if targetRpm != fields.rpm {
        targetRpm := fields.rpm;
      }
      var rpmDiff := targetRpm - displayedRpm;
      if Abs(rpmDiff) > 1 {
        displayedRpm := displayedRpm + TruncDiv(rpmDiff, 3) + (if rpmDiff > 0 then 2 else -2);
      } else {
        displayedRpm := targetRpm;
      }
    }

    /** The rest of `loop()` (dash.c:101-106): a test step once more than a
        second has passed since the last one, then the RPM update of
        `updateDisplay`. */
    method Tick(now: ULong)
      requires Valid()
      modifies this, decoder.data
      ensures Valid()
      ensures var due := old(testMode) && ElapsedSince(now, old(testTimer)) > TEST_INTERVAL;
        && testStep == (if due then NextTestStep(old(testStep)) else old(testStep))
        && testTimer == (if due then now else old(testTimer))
        && fields == (if due then TestFields(old(testStep), old(fields), old(sweepRpm), old(modeTest)) else old(fields))
        && targetRpm == fields.rpm
        && displayedRpm == DashRpmStep(old(displayedRpm), fields.rpm)
        && sweepRpm == (if due && old(testStep) == 11 then NextSweep(old(sweepRpm)) else old(sweepRpm))
        && modeTest == (if due && old(testStep) == 12 then NextModeTest(old(modeTest)) else old(modeTest))
        && var b := TestVoltageByte(old(testStep));
           decoder.data[..] == if due && b.Some? then old(decoder.data[..])[1 := b.value] else old(decoder.data[..])
      ensures decoder.State().bitIndex == old(decoder.State().bitIndex)
      ensures decoder.State().lastCrc == old(decoder.State().lastCrc)
      ensures testMode == old(testMode) && newDataAvailable == old(newDataAvailable)
    {
      if testMode && ElapsedSince(now, testTimer) > TEST_INTERVAL {
        RunTestCycle();
        testTimer := now;
      }
      UpdateRpm();
    }
  }
}
