/** The frames-per-second counter each listener keeps: the time of the last reset and the
    number of frames counted since. */
module FrameRate {

  datatype Counter = Counter(lastTimeMs: int, fps: nat)

  /** Window length of the counter, in milliseconds. */
  const WindowMs: int := 1000

  /** One frame at time nowMs: more than a second after the last reset, the counter restarts
      at nowMs with zero frames (the frame that triggers the reset is not counted);
      otherwise the frame is counted. */
  function Tick(c: Counter, nowMs: int): (d: Counter)
    ensures d.fps == 0 <==> nowMs > c.lastTimeMs + WindowMs
    ensures nowMs > c.lastTimeMs + WindowMs ==> d == Counter(nowMs, 0)
    ensures d.fps != 0 ==> d == Counter(c.lastTimeMs, c.fps + 1)
    ensures c.lastTimeMs <= d.lastTimeMs
    ensures d.lastTimeMs == c.lastTimeMs || d.lastTimeMs == nowMs
  {
    if nowMs > c.lastTimeMs + WindowMs then Counter(nowMs, 0)
    else Counter(c.lastTimeMs, c.fps + 1)
  }

  /** The counter after a run of frames at the given times. */
  function Run(c: Counter, ts: seq<int>): Counter
  {
    if ts == [] then c else Tick(Run(c, ts[..|ts| - 1]), ts[|ts| - 1])
  }

  /** Running two stretches of frames one after the other is running them together. */
  lemma {:induction false} RunAppend(c: Counter, ts: seq<int>, us: seq<int>)
    ensures Run(Run(c, ts), us) == Run(c, ts + us)
  {
    if us != [] {
      var m := |us| - 1;
      RunAppend(c, ts, us[..m]);
      assert (ts + us)[..|ts + us| - 1] == ts + us[..m];
    } else {
      assert ts + us == ts;
    }
  }

  /** Frames that all arrive within a second of the last reset are all counted, and the reset
      time stays put. */
  lemma {:induction false} RunWithinWindow(c: Counter, ts: seq<int>)
    requires forall i :: 0 <= i < |ts| ==> ts[i] <= c.lastTimeMs + WindowMs
    ensures Run(c, ts) == Counter(c.lastTimeMs, c.fps + |ts|)
  {
    if ts != [] {
      RunWithinWindow(c, ts[..|ts| - 1]);
    }
  }

  /** The reset time never moves back, and it is always the start time or one of the frames'
      times. */
  lemma {:induction false} RunResetTime(c: Counter, ts: seq<int>)
    ensures c.lastTimeMs <= Run(c, ts).lastTimeMs
    ensures Run(c, ts).lastTimeMs == c.lastTimeMs || Run(c, ts).lastTimeMs in ts
  {
    if ts != [] {
      RunResetTime(c, ts[..|ts| - 1]);
      assert forall t :: t in ts[..|ts| - 1] ==> t in ts;
    }
  }

  /** After a reset at frame i, followed only by frames within a second of it, the counter
      holds the time of frame i and the number of frames after it: the later frames are
      counted and frame i is not. */
  lemma CountsSinceReset(c: Counter, ts: seq<int>, i: nat)
    requires i < |ts| && ts[i] > Run(c, ts[..i]).lastTimeMs + WindowMs
    requires forall j :: i < j < |ts| ==> ts[j] <= ts[i] + WindowMs
    ensures Run(c, ts) == Counter(ts[i], |ts| - 1 - i)
  {
    assert ts[..i + 1][..i] == ts[..i];
    assert Run(c, ts[..i + 1]) == Counter(ts[i], 0);
    RunWithinWindow(Counter(ts[i], 0), ts[i + 1..]);
    RunAppend(c, ts[..i + 1], ts[i + 1..]);
    assert ts[..i + 1] + ts[i + 1..] == ts;
  }
}
