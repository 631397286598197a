/** The timer's module-level state and the operations that drive it: grid
    (re)initialisation, start with duration validation, the activation tick,
    the remaining-time readout, reset, the display toggle and the resize
    handler. */
module Timer {
  import Grid
  import Fill
  import Clock

  /** What `parseInt` returned for one input field. */
  datatype Parsed = NaN | Number(value: int)

  /** A field's contribution to the duration: `parseInt(...) || 0`, so a field
      that does not parse counts as 0. */
  function FieldValue(p: Parsed): (v: int)
    ensures p.NaN? ==> v == 0
    ensures p.Number? ==> v == p.value
  {
    match p
    case NaN => 0
    case Number(n) => n
  }

  /** Whole seconds requested by the three fields: the formula
      `hours * 3600 + minutes * 60 + seconds` of the script, without the extra
      half second. */
  function RequestedSeconds(hours: Parsed, minutes: Parsed, seconds: Parsed): (total: int)
    ensures total - FieldValue(seconds) == 60 * (60 * FieldValue(hours) + FieldValue(minutes))
    ensures hours.NaN? && minutes.NaN? && seconds.NaN? ==> total == 0
  {
    FieldValue(hours) * 3600 + FieldValue(minutes) * 60 + FieldValue(seconds)
  }

  /** The stored duration exceeds the requested whole seconds by half a second,
      so it is at most zero exactly when the request is negative. */
  lemma RejectedIffNegative(requested: int)
    ensures requested as real + 0.5 <= 0.0 <==> requested < 0
  {
  }

  /** When a tick of a run of `requested` whole seconds lights the last dot,
      the readout of the stored duration already shows `00:00:00`. */
  lemma ZeroReadoutAtCompletion(requested: int, elapsed: real, active: nat, total: nat)
    requires requested >= 0 && elapsed >= 0.0 && active < total
    requires Fill.Filled(active, Fill.PixelsToActivate(elapsed, requested as real, total), total) == total
    ensures Clock.Readout(Clock.Remaining(requested as real + 0.5, elapsed)) == "00:00:00"
  {
    if requested > 0 {
      var t := Fill.PixelsToActivate(elapsed, requested as real, total);
      assert Fill.Below(total - 1, t);
      Fill.TargetReachesGridIff(elapsed, requested as real, total);
    }
    Clock.ReadoutZeroIff(Clock.Remaining(requested as real + 0.5, elapsed));
  }

  /** The converse fails: a 10-second run on 100 dots reads `00:00:00` once more
      than 9.5 seconds have passed, while 3 dots are still dark at 9.75 seconds. */
  lemma ZeroReadoutBeforeCompletion()
    ensures Clock.Readout(Clock.Remaining(10.0 + 0.5, 9.75)) == "00:00:00"
    ensures Fill.Filled(0, Fill.PixelsToActivate(9.75, 10.0, 100), 100) == 97
  {
    assert Clock.Remaining(10.0 + 0.5, 9.75) == 0.75;
    Clock.ReadoutZeroIff(0.75);
    Fill.TenSecondsHundredDots();
  }

  /** Whether the tick asks for another animation frame or sounds the alarm. */
  datatype TickOutcome = Continue | Alarm

  /** Result of a start: refused with the "greater than 0" alert, or started,
      with the outcome of its immediate first tick. */
  datatype StartResult = Rejected | Started(tick: TickOutcome)

  /** Result of the debounced resize handler: the grid was rebuilt and the
      timer either left alone or restarted. */
  datatype ResizeResult = Kept | Restarted(start: StartResult)

  class PixelTimer {
    /** Stored duration: requested seconds plus half a second. */
    var durationInSeconds: real
    /** Number of dots of the current grid. */
    var totalPixels: nat
    /** Activation counter of the current run. */
    var activePixels: nat
    /** Indices lit so far; kept across grid rebuilds. */
    var activeDots: set<nat>
    /** Whether the remaining-time readout is shown. */
    var displayRemaining: bool
    /** The dots on screen: `cells[i]` says dot `i` has the active look. */
    var cells: seq<bool>

    /** The dots on screen are exactly the current grid, and a dot looks
        active exactly when its index is recorded as lit. */
    ghost predicate Valid()
      reads this
    {
      |cells| == totalPixels
      && forall i :: 0 <= i < totalPixels ==> (cells[i] <==> i in activeDots)
    }

    /** Page load: the initial values of the module state, then the grid is
        built for the viewport. */
    constructor (width: nat, height: nat)
      ensures Valid()
      ensures durationInSeconds == 0.0 && activePixels == 0 && activeDots == {} && displayRemaining
      ensures totalPixels == Grid.CellCount(width, height)
      ensures cells == Fill.Marked({}, totalPixels)
    {
      durationInSeconds := 0.0;
      totalPixels := 0;
      activePixels := 0;
      activeDots := {};
      displayRemaining := true;
      cells := [];
      new;
      InitializeTimer(width, height);
    }

    /** Rebuilds the grid for a viewport of `width` by `height`: the dot count
        follows the viewport, and each dot is lit exactly when its index was
        lit before. The counter and the lit indices are not touched. */
    method InitializeTimer(width: nat, height: nat)
      modifies this
      ensures Valid()
      ensures totalPixels == Grid.CellCount(width, height)
      ensures cells == Fill.Marked(activeDots, totalPixels)
      ensures activePixels == old(activePixels) && activeDots == old(activeDots)
      ensures durationInSeconds == old(durationInSeconds) && displayRemaining == old(displayRemaining)
    {
      var columns := Grid.CellsAlong(width);
      var rows := Grid.CellsAlong(height);
      totalPixels := columns * rows;
      cells := [];
      for i := 0 to totalPixels
        invariant |cells| == i
        invariant forall j :: 0 <= j < i ==> (cells[j] <==> j in activeDots)
        invariant totalPixels == columns * rows
        invariant activePixels == old(activePixels) && activeDots == old(activeDots)
        invariant durationInSeconds == old(durationInSeconds) && displayRemaining == old(displayRemaining)
      {
        cells := cells + [i in activeDots];
      }
    }

    /** One activation tick, `elapsed` seconds into the run: the counter climbs
        towards the time-derived target, capped at the grid size, lighting
        every index it passes; then the loop continues exactly while dots are
        left, and otherwise the alarm sounds. */
    method UpdatePixel(elapsed: real) returns (outcome: TickOutcome)
      requires Valid() && elapsed >= 0.0
      modifies this
      ensures Valid()
      ensures activePixels == Fill.Filled(old(activePixels),
                Fill.PixelsToActivate(elapsed, durationInSeconds - 0.5, totalPixels), totalPixels)
      ensures activeDots == old(activeDots) + Fill.Range(old(activePixels), activePixels)
      ensures outcome == if activePixels < totalPixels then Continue else Alarm
      ensures totalPixels == old(totalPixels) && durationInSeconds == old(durationInSeconds)
      ensures displayRemaining == old(displayRemaining)
    {
      var pixelsToActivate := Fill.PixelsToActivate(elapsed, durationInSeconds - 0.5, totalPixels);
      ghost var start, total := activePixels, totalPixels;
      while Fill.Below(activePixels, pixelsToActivate) && activePixels < totalPixels
        invariant Valid()
        invariant start <= activePixels && totalPixels == total
        invariant activePixels == start || (Fill.Below(activePixels - 1, pixelsToActivate) && activePixels - 1 < total)
        invariant activeDots == old(activeDots) + Fill.Range(start, activePixels)
        invariant durationInSeconds == old(durationInSeconds) && displayRemaining == old(displayRemaining)
        decreases totalPixels - activePixels
      {
        cells := cells[activePixels := true];
        activeDots := activeDots + {activePixels};
        activePixels := activePixels + 1;
      }
      Fill.FilledUnique(start, pixelsToActivate, total, activePixels);
      if activePixels < totalPixels {
        outcome := Continue;
      } else {
        outcome := Alarm;
      }
    }

    /** Starts a run from the three input fields, with the first tick taken
        `elapsed` seconds after the recorded start. The counter is zeroed
        before the duration is checked, and the duration is stored even when
        it is refused; a refused start changes nothing else. */
    method StartTimer(hours: Parsed, minutes: Parsed, seconds: Parsed, elapsed: real)
      returns (result: StartResult)
      requires Valid() && elapsed >= 0.0
      modifies this
      ensures Valid()
      ensures totalPixels == old(totalPixels)
      ensures durationInSeconds == RequestedSeconds(hours, minutes, seconds) as real + 0.5
      ensures result.Rejected? <==> RequestedSeconds(hours, minutes, seconds) < 0
      ensures result.Rejected? ==>
                activePixels == 0 && activeDots == old(activeDots) && cells == old(cells)
                && displayRemaining == old(displayRemaining)
      ensures result.Started? ==>
                displayRemaining
                && activePixels == Fill.Filled(0,
                     Fill.PixelsToActivate(elapsed, RequestedSeconds(hours, minutes, seconds) as real, totalPixels),
                     totalPixels)
                && activeDots == old(activeDots) + Fill.Range(0, activePixels)
                && result.tick == if activePixels < totalPixels then Continue else Alarm
    {
      activePixels := 0;
      var h := FieldValue(hours);
      var m := FieldValue(minutes);
      var s := FieldValue(seconds);
      durationInSeconds := (h * 3600 + m * 60 + s) as real + 0.5;
      if durationInSeconds <= 0.0 {
        RejectedIffNegative(h * 3600 + m * 60 + s);
        return Rejected;
      }
      RejectedIffNegative(h * 3600 + m * 60 + s);
      displayRemaining := true;
      var tick := UpdatePixel(elapsed);
      return Started(tick);
    }

    /** The readout for `elapsed` seconds into the run, and whether the
        readout loop asks for another frame. */
    method UpdateRemainingTime(elapsed: real) returns (text: string, again: bool)
      ensures text == Clock.Readout(Clock.Remaining(durationInSeconds, elapsed))
      ensures again <==> activePixels < totalPixels
    {
      var remaining := Clock.Remaining(durationInSeconds, elapsed);
      text := Clock.Readout(remaining);
      again := activePixels < totalPixels;
    }

    /** Back to the settings screen: counter zeroed, lit indices forgotten,
        readout hidden, and the grid rebuilt with no dot lit. */
    method ResetTimer(width: nat, height: nat)
      modifies this
      ensures Valid()
      ensures activePixels == 0 && activeDots == {} && !displayRemaining
      ensures totalPixels == Grid.CellCount(width, height)
      ensures cells == Fill.Marked({}, totalPixels)
      ensures durationInSeconds == old(durationInSeconds)
    {
      activePixels := 0;
      activeDots := {};
      displayRemaining := false;
      InitializeTimer(width, height);
    }

    /** Shows the readout if it was hidden, hides it if it was shown. */
    method ToggleDisplay()
      modifies this`displayRemaining
      ensures displayRemaining == !old(displayRemaining)
    {
      displayRemaining := !displayRemaining;
    }

    /** The debounced resize handler: rebuild the grid for the new viewport,
        then, if the counter is short of the new dot count, start again from
        the input fields. A rebuild never forgets a lit index. */
    method OnResize(width: nat, height: nat, hours: Parsed, minutes: Parsed, seconds: Parsed, elapsed: real)
      returns (result: ResizeResult)
      requires elapsed >= 0.0
      modifies this
      ensures Valid()
      ensures totalPixels == Grid.CellCount(width, height)
      ensures old(activeDots) <= activeDots
      ensures result.Restarted? <==> old(activePixels) < totalPixels
      ensures result.Kept? ==>
                activePixels == old(activePixels) && activeDots == old(activeDots)
                && cells == Fill.Marked(activeDots, totalPixels)
                && durationInSeconds == old(durationInSeconds)
                && displayRemaining == old(displayRemaining)
      ensures result.Restarted? ==>
                durationInSeconds == RequestedSeconds(hours, minutes, seconds) as real + 0.5
                && activeDots == old(activeDots) + Fill.Range(0, activePixels)
                && (result.start.Rejected? <==> RequestedSeconds(hours, minutes, seconds) < 0)
      ensures result.Restarted? && result.start.Rejected? ==>
                activePixels == 0 && activeDots == old(activeDots)
                && displayRemaining == old(displayRemaining)
      ensures result.Restarted? && result.start.Started? ==>
                displayRemaining
                && activePixels == Fill.Filled(0,
                     Fill.PixelsToActivate(elapsed, RequestedSeconds(hours, minutes, seconds) as real, totalPixels),
                     totalPixels)
                && result.start.tick == if activePixels < totalPixels then Continue else Alarm
    {
      InitializeTimer(width, height);
      if activePixels < totalPixels {
        var started := StartTimer(hours, minutes, seconds, elapsed);
        return Restarted(started);
      }
      return Kept;
    }
  }
}
