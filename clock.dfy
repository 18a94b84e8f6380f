/** The fixed-interval generation timer of Board::update, on exact reals. */
module Clock {

  /** Seconds between generations (UPDATE_TIME_IN_SECONDS). */
  const UpdateTime: real := 1.0 / 15.0

  /** What one update call does to the timer: whether a generation runs, and
      the timer value it leaves behind. */
  datatype TickResult = TickResult(fires: bool, timer: real)

  /** One update call: accumulate dt; at or below the interval nothing happens,
      above it one generation runs and the interval (not the whole timer) is
      subtracted, so the excess carries over. */
  function Tick(timer: real, dt: real): (r: TickResult)
    ensures r.fires <==> timer + dt > UpdateTime
    ensures r.timer + (if r.fires then UpdateTime else 0.0) == timer + dt
  {
    var t := timer + dt;
    if t <= UpdateTime then TickResult(false, t) else TickResult(true, t - UpdateTime)
  }

  /** Running total of a sequence of frame times. */
  function Sum(dts: seq<real>): (total: real) {
    if dts == [] then 0.0 else dts[0] + Sum(dts[1..])
  }

  predicate AllNonNegative(dts: seq<real>) {
    forall k :: 0 <= k < |dts| ==> dts[k] >= 0.0
  }

  /** The outcome of several update calls in a row: generations run and final timer. */
  datatype RunResult = RunResult(generations: nat, timer: real)

  function RunTicks(timer: real, dts: seq<real>): (r: RunResult)
    decreases dts
  {
    if dts == [] then RunResult(0, timer)
    else
      var first := Tick(timer, dts[0]);
      var rest := RunTicks(first.timer, dts[1..]);
      RunResult(rest.generations + (if first.fires then 1 else 0), rest.timer)
  }

  /** Restates the policy of Tick for a run of one call: at most one
      generation, and every second beyond the interval is kept. The
      substantive facts about runs are QuietTicks and FirstCrossingRunsOneGeneration. */
  lemma TickKeepsRemainder(timer: real, dt: real)
    ensures RunTicks(timer, [dt]).generations <= 1
    ensures RunTicks(timer, [dt]).generations == 1 <==> timer + dt > UpdateTime
    ensures RunTicks(timer, [dt]).timer + (if timer + dt > UpdateTime then UpdateTime else 0.0) == timer + dt
  {
    assert [dt][1..] == [];
  }

  /** A single update call never catches up: an elapsed time of more than two
      intervals still runs one generation and leaves the timer past the interval. */
  lemma OneGenerationPerCall(timer: real, dt: real)
    requires timer + dt > 2.0 * UpdateTime
    ensures Tick(timer, dt).fires && Tick(timer, dt).timer > UpdateTime
  {
  }

  /** Non-negative frame times that keep the accumulated timer at or below the
      interval run no generation; the timer just accumulates them. */
  lemma {:induction false} QuietTicks(timer: real, dts: seq<real>)
    requires AllNonNegative(dts)
    requires timer + Sum(dts) <= UpdateTime
    ensures RunTicks(timer, dts) == RunResult(0, timer + Sum(dts))
    decreases dts
  {
    if dts != [] {
      SumNonNegative(dts[1..]);
      QuietTicks(timer + dts[0], dts[1..]);
    }
  }

  lemma {:induction false} SumNonNegative(dts: seq<real>)
    requires AllNonNegative(dts)
    ensures Sum(dts) >= 0.0
    decreases dts
  {
    if dts != [] {
      SumNonNegative(dts[1..]);
    }
  }

  /** Quiet frames followed by the frame that takes the timer past the interval
      run exactly one generation and carry the excess over. */
  lemma {:induction false} FirstCrossingRunsOneGeneration(timer: real, dts: seq<real>, last: real)
    requires AllNonNegative(dts)
    requires timer + Sum(dts) <= UpdateTime < timer + Sum(dts) + last
    ensures RunTicks(timer, dts + [last]) == RunResult(1, timer + Sum(dts) + last - UpdateTime)
    decreases dts
  {
    if dts == [] {
      assert [last][1..] == [];
    } else {
      SumNonNegative(dts[1..]);
      assert (dts + [last])[1..] == dts[1..] + [last];
      FirstCrossingRunsOneGeneration(timer + dts[0], dts[1..], last);
    }
  }

  /** Frame times adding up to exactly one interval do not run a generation:
      the update only fires once the timer is strictly past the interval. */
  lemma ExactIntervalDoesNotFire(timer: real, dts: seq<real>)
    requires AllNonNegative(dts) && timer + Sum(dts) == UpdateTime
    ensures RunTicks(timer, dts).generations == 0
  {
    QuietTicks(timer, dts);
  }
}
