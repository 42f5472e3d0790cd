/** The slave-pool autoscaler: once per polling round it reads the queue
    length and the number of running tasks from the master's status page,
    grows the managed instance group by 10 (up to 100) while work is queued,
    and shrinks it to one node once everything is idle and the last growth
    is more than ten minutes old. Clock readings, the status page and the
    outcome of the resize call are parameters. */
module Autoscale {
  import opened Wrappers

  /** Instances are billed for at least ten minutes, so the pool is never
      shrunk sooner than this many seconds after it last grew. */
  const ShrinkLag: int := 600
  const MaxSize: nat := 100
  const GrowStep: nat := 10

  datatype Stats = Stats(queueLen: nat, running: nat)

  /** The loop's variables between rounds. */
  datatype State = State(lastSize: nat, lastGrowTime: int)

  /** The state before the first round: the group's current target size, and
      a last growth at time 0. */
  function Start(targetSize: nat): (s: State)
    ensures s.lastSize == targetSize && s.lastGrowTime == 0
  {
    State(targetSize, 0)
  }

  /** The size a round asks for, given the polled statistics. */
  function NewSize(s: State, stats: Stats, now: int): (n: nat)
    ensures stats.queueLen > 0 ==> n == (if s.lastSize + GrowStep <= MaxSize then s.lastSize + GrowStep else MaxSize)
    ensures stats.queueLen + stats.running == 0 && now - s.lastGrowTime > ShrinkLag ==> n == 1
    ensures n == 1 && s.lastSize != 1 ==>
              stats.queueLen + stats.running == 0 && now - s.lastGrowTime > ShrinkLag
    ensures stats.queueLen == 0 && !(stats.running == 0 && now - s.lastGrowTime > ShrinkLag) ==> n == s.lastSize
  {
    if stats.queueLen > 0 then
      if s.lastSize + 10 <= 100 then s.lastSize + 10 else 100
    else if stats.queueLen + stats.running == 0 && now - s.lastGrowTime > ShrinkLag then 1
    else s.lastSize
  }

  /** What one round did: the new state and the size it asked the group to
      take, if it called `resize` at all. */
  datatype Round = Round(state: State, resized: Option<nat>)

  /** One round of the loop. `stats` is `None` when reading the status page
      failed; `resizeOk` is whether the resize command succeeded. Any
      exception ends the round with the variables as they were at that
      point. */
  function Step(s: State, stats: Option<Stats>, now: int, resizeOk: bool): (r: Round)
    ensures stats.None? ==> r == Round(s, None)
    ensures stats.Some? && stats.value.queueLen > 0 ==> r.state.lastGrowTime == now
    ensures stats.Some? && stats.value.queueLen == 0 ==> r.state.lastGrowTime == s.lastGrowTime
    ensures r.resized.Some? <==> stats.Some? && NewSize(s, stats.value, now) != s.lastSize
    ensures r.resized.Some? ==> r.resized.value == NewSize(s, stats.value, now)
    ensures r.state.lastSize == (if r.resized.Some? && resizeOk then r.resized.value else s.lastSize)
  {
    match stats
    case None => Round(s, None)
    case Some(st) =>
      var grown := if st.queueLen > 0 then now else s.lastGrowTime;
      var n := NewSize(s, st, now);
      if n != s.lastSize then
        Round(State(if resizeOk then n else s.lastSize, grown), Some(n))
      else
        Round(State(s.lastSize, grown), None)
  }

  /** A pool of at most 100 nodes stays at most 100 nodes, whatever the
      round observed. */
  lemma StepKeepsBound(s: State, stats: Option<Stats>, now: int, resizeOk: bool)
    requires s.lastSize <= MaxSize
    ensures Step(s, stats, now, resizeOk).state.lastSize <= MaxSize
  {
  }

  /** Rounds whose polls all succeed and all see queued work, at successive
      clock readings. */
  function Busy(s: State, nows: seq<int>): (t: State)
    ensures |nows| > 0 ==> t.lastGrowTime == nows[|nows| - 1]
  {
    if |nows| == 0 then s
    else Step(Busy(s, nows[..|nows| - 1]), Some(Stats(1, 0)), nows[|nows| - 1], true).state
  }

  /** `k` busy rounds grow the pool by 10 nodes each, capped at 100. */
  lemma {:induction false} BusyGrowth(s: State, nows: seq<int>)
    requires s.lastSize <= MaxSize
    ensures Busy(s, nows).lastSize == (if s.lastSize + GrowStep * |nows| <= MaxSize then s.lastSize + GrowStep * |nows| else MaxSize)
  {
    if |nows| > 0 {
      BusyGrowth(s, nows[..|nows| - 1]);
    }
  }

  /** One polling round's observations: the statistics (None when the
      status page could not be read), the clock, and whether `resize`
      succeeded. */
  datatype Poll = Poll(stats: Option<Stats>, now: int, resizeOk: bool)

  /** The state after the given rounds, in order. */
  function Rounds(s: State, polls: seq<Poll>): State {
    if |polls| == 0 then s
    else
      var p := polls[|polls| - 1];
      Step(Rounds(s, polls[..|polls| - 1]), p.stats, p.now, p.resizeOk).state
  }

  lemma {:induction false} RoundsKeepBound(s: State, polls: seq<Poll>)
    requires s.lastSize <= MaxSize
    ensures Rounds(s, polls).lastSize <= MaxSize
  {
    if |polls| > 0 {
      var p := polls[|polls| - 1];
      RoundsKeepBound(s, polls[..|polls| - 1]);
      StepKeepsBound(Rounds(s, polls[..|polls| - 1]), p.stats, p.now, p.resizeOk);
    }
  }

  /** A scaler started on a group of at most 100 nodes never asks for more
      than 100, whatever its polls observe. */
  lemma StartedPoolBounded(targetSize: nat, polls: seq<Poll>)
    requires targetSize <= MaxSize
    ensures Rounds(Start(targetSize), polls).lastSize <= MaxSize
  {
    RoundsKeepBound(Start(targetSize), polls);
  }

  /** The last growth of a freshly started scaler counts as time 0, so its
      first idle round shrinks the group to one node as soon as the clock
      reads past 600 seconds, however recently the group was resized. */
  lemma StartIdleShrinks(targetSize: nat, now: int, resizeOk: bool)
    requires targetSize != 1 && now > ShrinkLag
    ensures Step(Start(targetSize), Some(Stats(0, 0)), now, resizeOk).resized == Some(1)
    ensures resizeOk ==> Step(Start(targetSize), Some(Stats(0, 0)), now, resizeOk).state == State(1, 0)
  {
  }

  /** Once the pool has grown, an idle round shrinks it only after the
      shrink lag: an idle poll within 600 seconds leaves the size alone. */
  lemma NoShrinkWithinLag(s: State, stats: Stats, now: int, resizeOk: bool)
    requires stats.queueLen == 0
    requires now - s.lastGrowTime <= ShrinkLag
    ensures Step(s, Some(stats), now, resizeOk) == Round(s, None)
  {
  }
}
