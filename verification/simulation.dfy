/**
  The timer loop run over a finite series of clock readings. `simulate()`
  starts the loop on a newly constructed light; each iteration of the
  loop is a `CycleStep` fed one clock reading and one `rand()` value.
  Until something receives from the queue, the queue holds every phase the
  light has switched to, in order: green, red, green, ...
 */
module Simulation {
  import opened TrafficLight

  /** One clock reading by the timer loop, with the `rand()` value drawn if that step fires. */
  datatype Tick = Tick(now: nat, rnd: nat)

  /** The light and timer loop after `simulate()` with first clock reading `now` and first draw `rnd`. */
  function Start(now: nat, rnd: nat): (s: Step)
    ensures s.light == NewLight()
    ensures s.timer.start == now && s.timer.target == CycleDuration(rnd)
    ensures TimerInRange(s.timer)
    ensures !s.fired
  {
    Step(NewLight(), StartTimer(now, rnd), false)
  }

  /** Feeds the clock readings `ticks` to the timer loop, one `CycleStep` each. */
  function Run(s: Step, ticks: seq<Tick>): (r: Step)
    ensures |s.light.messages| <= |r.light.messages| <= |s.light.messages| + |ticks|
    ensures r.light.messages[..|s.light.messages|] == s.light.messages
    ensures r.light.phase == s.light.phase <==> (|r.light.messages| - |s.light.messages|) % 2 == 0
    ensures TimerInRange(s.timer) ==> TimerInRange(r.timer)
    decreases |ticks|
  {
    if |ticks| == 0 then s
    else Run(CycleStep(s.light, s.timer, ticks[0].now, ticks[0].rnd), ticks[1..])
  }

  /** The phase shown after `n` flips from red. */
  function PhaseAfter(n: nat): Phase
  {
    if n % 2 == 0 then Red else Green
  }

  /**
    The light as only the timer loop leaves it: the queue holds green, red,
    green, ... and the current phase is the one sent last (red if nothing
    has been sent).
   */
  predicate Alternating(l: Light)
  {
    && (forall i :: 0 <= i < |l.messages| ==> l.messages[i] == PhaseAfter(i + 1))
    && l.phase == PhaseAfter(|l.messages|)
  }

  /** One step of the timer loop keeps the light alternating and the next cycle length in range. */
  lemma StepKeepsAlternating(l: Light, t: Timer, now: nat, rnd: nat)
    requires Alternating(l) && TimerInRange(t)
    ensures Alternating(CycleStep(l, t, now, rnd).light)
    ensures TimerInRange(CycleStep(l, t, now, rnd).timer)
  {
  }

  /** Any number of steps keeps the light alternating and the cycle length in range. */
  lemma {:induction false} RunKeepsAlternating(s: Step, ticks: seq<Tick>)
    requires Alternating(s.light) && TimerInRange(s.timer)
    ensures Alternating(Run(s, ticks).light)
    ensures TimerInRange(Run(s, ticks).timer)
    decreases |ticks|
  {
    if |ticks| > 0 {
      StepKeepsAlternating(s.light, s.timer, ticks[0].now, ticks[0].rnd);
      RunKeepsAlternating(CycleStep(s.light, s.timer, ticks[0].now, ticks[0].rnd), ticks[1..]);
    }
  }

  /**
    However long the loop has run, the phase it reports is the phase it
    last sent (red before the first send), and every cycle length drawn lies
    between the shortest and the longest.
   */
  lemma CurrentPhaseIsLastSent(now: nat, rnd: nat, ticks: seq<Tick>)
    ensures TimerInRange(Run(Start(now, rnd), ticks).timer)
    ensures var l := Run(Start(now, rnd), ticks).light;
      && (|l.messages| == 0 ==> GetCurrentPhase(l) == Red)
      && (|l.messages| > 0 ==> GetCurrentPhase(l) == l.messages[|l.messages| - 1])
  {
    RunKeepsAlternating(Start(now, rnd), ticks);
  }

  /**
    On a queue filled only by the timer loop, `WaitForGreen` consumes one
    message when the light shows green (the green just sent) and two when
    it shows red (the red just sent and the green before it).
   */
  lemma WaitOnAlternating(l: Light)
    requires Alternating(l) && Green in l.messages
    ensures |WaitForGreen(l).messages| == |l.messages| - (if l.phase == Green then 1 else 2)
  {
  }
}
