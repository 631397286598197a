/** The pixel-fill rule: how many dots should be lit once `elapsed` seconds of
    the run have passed, and where one activation tick leaves the counter. */
module Fill {

  /** The number of dots a tick tries to reach. `Unbounded` stands for the
      floating-point Infinity that a zero-length run produces; a NaN target
      (0/0, or Infinity times an empty grid) activates nothing, exactly like
      `Finite(0)`, and is written as that. */
  datatype Target = Finite(count: int) | Unbounded

  /** `k` dots are still short of the target. */
  predicate Below(k: int, t: Target) {
    t.Unbounded? || k < t.count
  }

  /** Target at `elapsed` seconds into a run whose adjusted length (the
      requested duration, without the extra half second) is `adjusted`, on a
      grid of `total` dots: the floor of `(elapsed / adjusted) * total`. */
  function PixelsToActivate(elapsed: real, adjusted: real, total: nat): (t: Target)
    requires elapsed >= 0.0
    ensures t.Unbounded? <==> adjusted == 0.0 && elapsed > 0.0 && total > 0
    ensures adjusted != 0.0 ==> t.count as real <= (elapsed / adjusted) * total as real < t.count as real + 1.0
    ensures adjusted == 0.0 && !t.Unbounded? ==> t == Finite(0)
  {
    if adjusted == 0.0 then
      if elapsed > 0.0 && total > 0 then Unbounded else Finite(0)
    else
      Finite(((elapsed / adjusted) * total as real).Floor)
  }

  /** Where the activation loop stops, starting from `active` lit dots: the
      count climbs one at a time while it is below both the target and the grid
      size. */
  function Filled(active: nat, t: Target, total: nat): (r: nat)
    ensures active <= r
    ensures forall k :: active <= k < r ==> Below(k, t) && k < total
    ensures !(Below(r, t) && r < total)
  {
    if active >= total then active
    else match t
      case Unbounded => total
      case Finite(n) => if n <= active then active else if n < total then n else total
  }

  /** The loop's exit point is unique: a count that was reached by a last
      step from below both bounds (or never moved), and that stops there, is
      `Filled`. */
  lemma FilledUnique(active: nat, t: Target, total: nat, r: nat)
    requires active <= r
    requires r == active || (Below(r - 1, t) && r - 1 < total)
    requires !(Below(r, t) && r < total)
    ensures r == Filled(active, t, total)
  {
    var f := Filled(active, t, total);
    assert f < r ==> Below(f, t) && f < total;
    assert r < f ==> Below(r, t) && r < total;
  }

  /** The result in closed form: the larger of the old count and the target
      capped at the grid size. It never decreases the count, and never takes
      it past the grid when it started inside it. */
  lemma FilledIsCappedMax(active: nat, t: Target, total: nat)
    ensures var cap := if t.Unbounded? || total <= t.count then total
                       else if t.count < 0 then 0 else t.count;
            Filled(active, t, total) == if active < cap then cap else active
    ensures active <= total ==> Filled(active, t, total) <= total
  {
  }

  /** `t1` asks for no more dots than `t2`. */
  predicate AtMost(t1: Target, t2: Target) {
    t2.Unbounded? || (t1.Finite? && t1.count <= t2.count)
  }

  /** Frame-rate independence: two ticks against growing targets leave the
      counter where a single tick against the later target would. */
  lemma {:induction false} TicksCompose(active: nat, t1: Target, t2: Target, total: nat)
    requires AtMost(t1, t2)
    ensures Filled(Filled(active, t1, total), t2, total) == Filled(active, t2, total)
  {
    var m := Filled(active, t1, total);
    var r := Filled(m, t2, total);
    assert r > m ==> Below(r - 1, t2) && r - 1 < total;
    assert m > active ==> Below(m - 1, t1) && m - 1 < total;
    FilledUnique(active, t2, total, r);
  }

  /** Later samples never ask for fewer dots. */
  lemma TargetMonotone(e1: real, e2: real, adjusted: real, total: nat)
    requires 0.0 <= e1 <= e2 && adjusted >= 0.0
    ensures AtMost(PixelsToActivate(e1, adjusted, total), PixelsToActivate(e2, adjusted, total))
  {
    if adjusted == 0.0 {
      return;
    }
    var x1 := e1 / adjusted;
    var x2 := e2 / adjusted;
    assert x1 <= x2 by {
      assert x1 * adjusted == e1 && x2 * adjusted == e2;
    }
    assert x1 * total as real <= x2 * total as real;
  }

  /** On a non-empty grid the target reaches every dot exactly when the
      adjusted duration has elapsed: the fill completes by its deadline and
      not before. */
  lemma TargetReachesGridIff(elapsed: real, adjusted: real, total: nat)
    requires elapsed >= 0.0 && adjusted > 0.0 && total > 0
    ensures PixelsToActivate(elapsed, adjusted, total).count >= total <==> elapsed >= adjusted
  {
    var x := elapsed / adjusted;
    var n := total as real;
    assert x * adjusted == elapsed;
    if elapsed >= adjusted {
      assert x >= 1.0;
      assert x * n >= n;
    } else {
      assert x < 1.0;
      assert x * n < n;
    }
  }

  /** A zero-length run (an entered duration of 0) lights every dot on the
      first tick with any time elapsed. */
  lemma ZeroDurationFillsGrid(active: nat, elapsed: real, total: nat)
    requires elapsed > 0.0 && active <= total
    ensures Filled(active, PixelsToActivate(elapsed, 0.0, total), total) == total
  {
  }

  /** A zero-length run sampled before any time has passed computes `0 / 0`,
      which is NaN: the tick lights nothing. */
  lemma NaNTargetLightsNothing(active: nat, total: nat)
    ensures Filled(active, PixelsToActivate(0.0, 0.0, total), total) == active
  {
  }

  /** An empty grid is never filled: every tick leaves the counter alone. */
  lemma EmptyGridActivatesNothing(active: nat, t: Target)
    ensures Filled(active, t, 0) == active
  {
  }

  /** One minute on a 100-dot grid: after 60 seconds all 100 dots are lit. */
  lemma OneMinuteHundredDots()
    ensures Filled(0, PixelsToActivate(60.0, 60.0, 100), 100) == 100
  {
    assert (60.0 / 60.0) * 100 as real == 100.0;
  }

  /** A 10-second run on 100 dots has 97 lit after 9.75 seconds. */
  lemma TenSecondsHundredDots()
    ensures Filled(0, PixelsToActivate(9.75, 10.0, 100), 100) == 97
  {
    assert (9.75 / 10.0) * 100 as real == 97.5;
  }

  /** Indices `lo` up to but excluding `hi`. */
  function Range(lo: nat, hi: nat): (s: set<nat>)
    ensures forall i :: i in s <==> lo <= i < hi
    decreases hi
  {
    if hi <= lo then {} else Range(lo, hi - 1) + {hi - 1}
  }

  /** Adjacent ranges join into one. */
  lemma RangesJoin(lo: nat, mid: nat, hi: nat)
    requires lo <= mid <= hi
    ensures Range(lo, mid) + Range(mid, hi) == Range(lo, hi)
  {
    var a, b := Range(lo, mid) + Range(mid, hi), Range(lo, hi);
    forall i | i in b ensures i in a {
      if i < mid {
        assert i in Range(lo, mid);
      } else {
        assert i in Range(mid, hi);
      }
    }
  }

  /** When the lit indices were exactly the prefix below the counter, a tick
      keeps them so. */
  lemma TickKeepsPrefix(active: nat, t: Target, total: nat)
    ensures Range(0, active) + Range(active, Filled(active, t, total)) == Range(0, Filled(active, t, total))
  {
    RangesJoin(0, active, Filled(active, t, total));
  }

  /** The dot flags of a freshly built grid of `n` dots: dot `i` is lit
      exactly when its index is in `dots`. */
  function Marked(dots: set<nat>, n: nat): (cells: seq<bool>)
    ensures |cells| == n
    ensures forall i :: 0 <= i < n ==> (cells[i] <==> i in dots)
  {
    seq(n, i => i in dots)
  }
}
