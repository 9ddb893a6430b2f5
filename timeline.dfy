/**
 * The playback clock over the frame times: advance the timer, wrap or clamp
 * past the last frame, then move the cursor forward to the latest frame not
 * after the timer. Times are exact reals.
 */
module Timeline {
  /** The player's `playbackTimer` and `currentFrameIndex`. */
  datatype Clock = Clock(timer: real, index: nat)

  /** Frame times never decrease along the recording. */
  ghost predicate Sorted(times: seq<real>)
  {
    forall i, j :: 0 <= i <= j < |times| ==> times[i] <= times[j]
  }

  /** `i` is the last frame whose time is not after `t`. */
  ghost predicate IsLatest(times: seq<real>, t: real, i: nat)
  {
    i < |times| && times[i] <= t && forall k :: i < k < |times| ==> times[k] > t
  }

  /** The cursor is on a frame and that frame is not after the timer. */
  ghost predicate NotAhead(times: seq<real>, c: Clock)
  {
    c.index < |times| && times[c.index] <= c.timer
  }

  /**
   * The cursor scan: from `i`, step forward while the next frame's time is not
   * after `t`. It stops on the first frame from `i` whose successor is after
   * `t`, or on the last frame.
   */
  function Scan(times: seq<real>, i: nat, t: real): (r: nat)
    requires i < |times|
    ensures i <= r < |times|
    ensures forall k :: i < k <= r ==> times[k] <= t
    ensures r == |times| - 1 || times[r + 1] > t
    decreases |times| - i
  {
    if i < |times| - 1 && times[i + 1] <= t then Scan(times, i + 1, t) else i
  }

  /** One Update tick on a non-empty recording. */
  function Advance(times: seq<real>, c: Clock, dt: real, speed: real, loop: bool): (r: Clock)
    requires |times| > 0 && c.index < |times|
    ensures r.index < |times|
    ensures r.index == |times| - 1 || times[r.index + 1] > r.timer
  {
    var start := Reposition(times, c, dt, speed, loop);
    Clock(start.timer, Scan(times, start.index, start.timer))
  }

  /** The first half of a tick: move the timer, then wrap or clamp it if it passed the last frame. */
  function Reposition(times: seq<real>, c: Clock, dt: real, speed: real, loop: bool): Clock
    requires |times| > 0
  {
    var last := |times| - 1;
    var t := c.timer + dt * speed;
    if t <= times[last] then Clock(t, c.index)
    else if loop then Clock(times[0], 0)
    else Clock(times[last], last)
  }

  /** Successive ticks with the given frame durations. */
  function Run(times: seq<real>, c: Clock, dts: seq<real>, speed: real, loop: bool): (r: Clock)
    requires |times| > 0 && c.index < |times|
    ensures r.index < |times|
    decreases |dts|
  {
    if dts == [] then c else Run(times, Advance(times, c, dts[0], speed, loop), dts[1..], speed, loop)
  }

  function Sum(xs: seq<real>): real
    decreases |xs|
  {
    if xs == [] then 0.0 else xs[0] + Sum(xs[1..])
  }

  // ----- Properties -----

  /** On sorted times, a scan that starts not after `t` lands on the latest frame not after `t`. */
  lemma ScanFindsLatest(times: seq<real>, i: nat, t: real)
    requires Sorted(times) && i < |times| && times[i] <= t
    ensures IsLatest(times, t, Scan(times, i, t))
  {
    var r := Scan(times, i, t);
    if r < |times| - 1 {
      forall k | r < k < |times| ensures times[k] > t {
        assert times[r + 1] <= times[k];
      }
    }
  }

  /** There is at most one latest frame for a time. */
  lemma LatestIsUnique(times: seq<real>, t: real, i: nat, j: nat)
    requires IsLatest(times, t, i) && IsLatest(times, t, j)
    ensures i == j
  {
  }

  /** Frames sharing a timestamp resolve to the last of them. */
  lemma TiesResolveToLast(times: seq<real>, t: real, i: nat, k: nat)
    requires IsLatest(times, t, i) && k < |times| && times[k] == times[i]
    ensures k <= i
  {
  }

  /**
   * On sorted times, a tick with non-negative advance keeps the cursor on the
   * latest frame not after the timer, whichever branch it takes.
   */
  lemma AdvanceFindsLatest(times: seq<real>, c: Clock, dt: real, speed: real, loop: bool)
    requires Sorted(times) && NotAhead(times, c) && dt * speed >= 0.0
    ensures var r := Advance(times, c, dt, speed, loop);
            IsLatest(times, r.timer, r.index) && NotAhead(times, r)
  {
    var last := |times| - 1;
    var t := c.timer + dt * speed;
    if t <= times[last] {
      ScanFindsLatest(times, c.index, t);
    } else if loop {
      ScanFindsLatest(times, 0, times[0]);
    } else {
      ScanFindsLatest(times, last, times[last]);
    }
  }

  /** Without overshooting the last frame, the timer moves by dt * speed and the cursor never moves back. */
  lemma AdvanceWithinRecording(times: seq<real>, c: Clock, dt: real, speed: real, loop: bool)
    requires |times| > 0 && c.index < |times|
    requires c.timer + dt * speed <= times[|times| - 1]
    ensures Advance(times, c, dt, speed, loop).timer == c.timer + dt * speed
    ensures Advance(times, c, dt, speed, loop).index >= c.index
  {
  }

  /** Past the last frame with looping on, the timer restarts at the first frame's time and the scan restarts at 0. */
  lemma AdvanceWraps(times: seq<real>, c: Clock, dt: real, speed: real)
    requires |times| > 0 && c.index < |times|
    requires c.timer + dt * speed > times[|times| - 1]
    ensures var r := Advance(times, c, dt, speed, true);
            r.timer == times[0] && r.index == Scan(times, 0, times[0])
    ensures Sorted(times) ==> IsLatest(times, times[0], Advance(times, c, dt, speed, true).index)
  {
    if Sorted(times) {
      ScanFindsLatest(times, 0, times[0]);
    }
  }

  /** Past the last frame with looping off, timer and cursor clamp to the last frame. */
  lemma AdvanceClamps(times: seq<real>, c: Clock, dt: real, speed: real)
    requires |times| > 0 && c.index < |times|
    requires c.timer + dt * speed > times[|times| - 1]
    ensures Advance(times, c, dt, speed, false) == Clock(times[|times| - 1], |times| - 1)
  {
  }

  /** Once clamped, further non-negative ticks leave timer and cursor where they are. */
  lemma {:induction false} ClampIsAbsorbing(times: seq<real>, dts: seq<real>, speed: real)
    requires |times| > 0 && speed >= 0.0
    requires forall k :: 0 <= k < |dts| ==> dts[k] >= 0.0
    ensures var end := Clock(times[|times| - 1], |times| - 1);
            Run(times, end, dts, speed, false) == end
    decreases |dts|
  {
    var end := Clock(times[|times| - 1], |times| - 1);
    if dts != [] {
      assert dts[0] * speed >= 0.0;
      assert Advance(times, end, dts[0], speed, false) == end;
      ClampIsAbsorbing(times, dts[1..], speed);
    }
  }

  /** Playback time a run of ticks adds: each tick adds its duration times the speed. */
  function Elapsed(dts: seq<real>, speed: real): real
    decreases |dts|
  {
    if dts == [] then 0.0 else dts[0] * speed + Elapsed(dts[1..], speed)
  }

  /** The playback time a run adds is the speed times the real time it spans. */
  lemma {:induction false} ElapsedIsScaledSum(dts: seq<real>, speed: real)
    ensures Elapsed(dts, speed) == speed * Sum(dts)
    decreases |dts|
  {
    if dts != [] {
      ElapsedIsScaledSum(dts[1..], speed);
      assert speed * (dts[0] + Sum(dts[1..])) == speed * dts[0] + speed * Sum(dts[1..]);
    }
  }

  lemma ProductNonNegative(x: real, y: real)
    requires x >= 0.0 && y >= 0.0
    ensures x * y >= 0.0
  {
  }

  lemma {:induction false} ElapsedNonNegative(dts: seq<real>, speed: real)
    requires speed >= 0.0
    requires forall k :: 0 <= k < |dts| ==> dts[k] >= 0.0
    ensures Elapsed(dts, speed) >= 0.0
    decreases |dts|
  {
    if dts != [] {
      assert dts[0] * speed >= 0.0;
      ElapsedNonNegative(dts[1..], speed);
    }
  }

  /** Within one pass through the recording the cursor never moves back: it only resets on a wrap. */
  lemma {:induction false} RunNeverMovesBack(times: seq<real>, c: Clock, dts: seq<real>, speed: real, loop: bool)
    requires |times| > 0 && c.index < |times| && speed >= 0.0
    requires forall k :: 0 <= k < |dts| ==> dts[k] >= 0.0
    requires c.timer + Elapsed(dts, speed) <= times[|times| - 1]
    ensures Run(times, c, dts, speed, loop).index >= c.index
    decreases |dts|
  {
    if dts != [] {
      var rest := dts[1..];
      ElapsedNonNegative(rest, speed);
      var c1 := Advance(times, c, dts[0], speed, loop);
      AdvanceWithinRecording(times, c, dts[0], speed, loop);
      RunNeverMovesBack(times, c1, rest, speed, loop);
    }
  }

  /** Within one pass through the recording the timer is the start time plus the elapsed playback time. */
  lemma {:induction false} RunTimer(times: seq<real>, c: Clock, dts: seq<real>, speed: real, loop: bool)
    requires |times| > 0 && c.index < |times| && speed >= 0.0
    requires forall k :: 0 <= k < |dts| ==> dts[k] >= 0.0
    requires c.timer + Elapsed(dts, speed) <= times[|times| - 1]
    ensures Run(times, c, dts, speed, loop).timer == c.timer + Elapsed(dts, speed)
    decreases |dts|
  {
    if dts != [] {
      var rest := dts[1..];
      ElapsedNonNegative(rest, speed);
      var c1 := Advance(times, c, dts[0], speed, loop);
      AdvanceWithinRecording(times, c, dts[0], speed, loop);
      RunTimer(times, c1, rest, speed, loop);
    }
  }

  /**
   * On sorted times, a run of non-negative ticks within the recording keeps
   * the cursor not after the timer, and after at least one tick it is on the
   * latest frame not after the timer.
   */
  lemma {:induction false} RunEndsOnLatest(times: seq<real>, c: Clock, dts: seq<real>, speed: real, loop: bool)
    requires Sorted(times) && NotAhead(times, c) && speed >= 0.0
    requires forall k :: 0 <= k < |dts| ==> dts[k] >= 0.0
    requires c.timer + Elapsed(dts, speed) <= times[|times| - 1]
    ensures NotAhead(times, Run(times, c, dts, speed, loop))
    ensures dts != [] ==> var r := Run(times, c, dts, speed, loop); IsLatest(times, r.timer, r.index)
    decreases |dts|
  {
    if dts != [] {
      var rest := dts[1..];
      ProductNonNegative(dts[0], speed);
      ElapsedNonNegative(rest, speed);
      var c1 := Advance(times, c, dts[0], speed, loop);
      AdvanceWithinRecording(times, c, dts[0], speed, loop);
      AdvanceFindsLatest(times, c, dts[0], speed, loop);
      RunEndsOnLatest(times, c1, rest, speed, loop);
      if rest == [] {
        assert Run(times, c1, rest, speed, loop) == c1;
      }
    }
  }

  /**
   * From the first frame, non-negative ticks spanning T seconds at a
   * non-negative speed, with the first time plus speed * T not past the last
   * frame, leave the cursor on the latest frame not after that time.
   */
  lemma PlaybackFromStart(times: seq<real>, dts: seq<real>, speed: real, loop: bool)
    requires |times| > 0 && Sorted(times) && speed >= 0.0 && dts != []
    requires forall k :: 0 <= k < |dts| ==> dts[k] >= 0.0
    requires times[0] + speed * Sum(dts) <= times[|times| - 1]
    ensures var r := Run(times, Clock(times[0], 0), dts, speed, loop);
            r.timer == times[0] + speed * Sum(dts) && IsLatest(times, r.timer, r.index)
  {
    ElapsedIsScaledSum(dts, speed);
    RunTimer(times, Clock(times[0], 0), dts, speed, loop);
    RunEndsOnLatest(times, Clock(times[0], 0), dts, speed, loop);
  }

  /** Looping recording at times 0, 1, 2: a 2.5 s tick from the start wraps to the first frame, timer 0. */
  lemma WrapExample()
    ensures Advance([0.0, 1.0, 2.0], Clock(0.0, 0), 2.5, 1.0, true) == Clock(0.0, 0)
  {
  }

  /** Non-looping recording at times 0, 1, 2: a 10 s tick clamps to the last frame, timer 2. */
  lemma ClampExample()
    ensures Advance([0.0, 1.0, 2.0], Clock(0.0, 0), 10.0, 1.0, false) == Clock(2.0, 2)
  {
  }
}
