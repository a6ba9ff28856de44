/**
  The traffic light with its threads, mutex and clock removed: a phase that
  the timer loop flips between red and green, a message queue into which
  every new phase is sent, and `WaitForGreen`, which drains that queue up to
  and including the most recent green.

  The timer loop is modelled one clock reading at a time (`CycleStep`): the
  current time and the value `rand()` returned are inputs, so sleeping,
  the steady clock and the random generator are all outside the model.
 */
module TrafficLight {
  import MessageQueue

  datatype Phase = Red | Green

  /** The light: its current phase and the queue of phases sent so far and not yet received. */
  datatype Light = Light(phase: Phase, messages: seq<Phase>)

  /**
    The locals of the timer loop: when the current cycle started and how
    long it lasts, both in milliseconds.
   */
  datatype Timer = Timer(start: nat, target: nat)

  /**
    The state of the timer loop after a reading of the clock: the light,
    the timer, and whether that reading made the light flip (false before
    the first reading).
   */
  datatype Step = Step(light: Light, timer: Timer, fired: bool)

  /** Shortest cycle: the offset added to `rand() % 2001`. */
  const MinCycleMs: nat := 4000
  /** Number of distinct cycle lengths: the modulus applied to `rand()`. */
  const CycleSpreadMs: nat := 2001
  /** Longest cycle. */
  const MaxCycleMs: nat := MinCycleMs + CycleSpreadMs - 1

  /** A newly constructed light shows red and has sent nothing. */
  function NewLight(): (l: Light)
    ensures l.phase == Red
    ensures |l.messages| == 0
  {
    Light(Red, [])
  }

  /** Observes the phase without changing the light. */
  function GetCurrentPhase(l: Light): (p: Phase)
    ensures p == l.phase
  {
    l.phase
  }

  /** The other phase: red becomes green and green becomes red. */
  function Toggle(p: Phase): (r: Phase)
    ensures r != p
  {
    if p == Red then Green else Red
  }

  /** Flipping the phase twice gives back the phase started from. */
  lemma ToggleTwice(p: Phase)
    ensures Toggle(Toggle(p)) == p
  {
  }

  /** Cycle length for a non-negative value returned by `rand()`. */
  function CycleDuration(rnd: nat): (d: nat)
    ensures MinCycleMs <= d <= MaxCycleMs
  {
    rnd % CycleSpreadMs + MinCycleMs
  }

  /**
    Every cycle length in range is drawn for some value of `rand()` no
    larger than 2000, which every C library's `rand()` can return.
   */
  lemma CycleDurationCovers(d: nat)
    requires MinCycleMs <= d <= MaxCycleMs
    ensures d - MinCycleMs < CycleSpreadMs
    ensures CycleDuration(d - MinCycleMs) == d
  {
  }

  /** A timer whose cycle length lies in the range the loop draws from. */
  predicate TimerInRange(t: Timer)
  {
    MinCycleMs <= t.target <= MaxCycleMs
  }

  /**
    Entry to the timer loop: the cycle starts at the first clock reading
    and its length is `(endTime - startTime)`, which is zero, plus a
    freshly drawn duration.
   */
  function StartTimer(now: nat, rnd: nat): (t: Timer)
    ensures t.start == now
    ensures t.target == CycleDuration(rnd)
    ensures TimerInRange(t)
  {
    Timer(now, CycleDuration(rnd))
  }

  /**
    One reading `now` of the clock by the timer loop. While less than the
    cycle length has elapsed nothing changes (the loop sleeps again).
    Otherwise the cycle restarts at `now`, the phase flips, the new phase is
    sent to the queue, and the next cycle length is drawn from `rnd`.
   */
  function CycleStep(l: Light, t: Timer, now: nat, rnd: nat): (s: Step)
    ensures s.fired <==> now - t.start >= t.target
    ensures !s.fired ==> s.light == l && s.timer == t
    ensures s.fired ==> s.light.phase != l.phase
    ensures s.fired ==> s.light.messages == MessageQueue.Send(l.messages, s.light.phase)
    ensures s.fired ==> s.timer.start == now && s.timer.target == CycleDuration(rnd)
    ensures s.fired ==> TimerInRange(s.timer)
  {
    if now - t.start < t.target then Step(l, t, false)
    else
      var phase := Toggle(l.phase);
      Step(Light(phase, MessageQueue.Send(l.messages, phase)), Timer(now, CycleDuration(rnd)), true)
  }

  /**
    A step taken from a timer in range never fires before the shortest
    cycle has elapsed and always fires once the longest one has.
   */
  lemma FiringWindow(l: Light, t: Timer, now: nat, rnd: nat)
    requires TimerInRange(t)
    ensures CycleStep(l, t, now, rnd).fired ==> now - t.start >= MinCycleMs
    ensures now - t.start >= MaxCycleMs ==> CycleStep(l, t, now, rnd).fired
  {
  }

  /**
    Receives phases until one is green. Every red received is discarded;
    the green is consumed too. Blocking on an empty queue is replaced by
    the requirement that a green is queued.
   */
  function WaitForGreen(l: Light): (l': Light)
    requires Green in l.messages
    ensures l'.phase == l.phase
    ensures |l'.messages| < |l.messages|
    ensures l.messages[..|l'.messages|] == l'.messages
    ensures l.messages[|l'.messages|] == Green
    ensures forall j :: |l'.messages| < j < |l.messages| ==> l.messages[j] == Red
    decreases |l.messages|
  {
    var r := MessageQueue.Receive(l.messages);
    assert l.messages == r.rest + [r.msg];
    assert l.messages[|r.rest|] == r.msg;
    if r.msg == Red then
      WaitForGreen(l.(messages := r.rest))
    else
      l.(messages := r.rest)
  }

  /**
    What `WaitForGreen` leaves is exactly the queue before its last green:
    any index holding a green with only reds after it is the length of the
    remaining queue.
   */
  lemma WaitForGreenStopsAtLastGreen(l: Light, k: nat)
    requires k < |l.messages| && l.messages[k] == Green
    requires forall j :: k < j < |l.messages| ==> l.messages[j] == Red
    ensures Green in l.messages
    ensures WaitForGreen(l).messages == l.messages[..k]
  {
  }
}
