# Traffic light: sequential model

This project models the traffic light of a concurrent traffic simulation, with
its threads, mutex, condition variable, clock and random generator removed.
Three pieces are left:

- **`MessageQueue`** (`message_queue.dfy`): the message queue as a `seq<T>`.
  `send` appends at the back. `receive` takes the back element and removes it,
  so the queue is last-in-first-out. A code comment calls it "first in first
  out"; the model follows the code. A `receive` that would block on an empty
  queue becomes the precondition that the queue is non-empty.
- **`TrafficLight`** (`traffic_light.dfy`): the `Phase` datatype (red, green)
  and the light, which holds its current phase and its queue. The constructor
  sets red. The timer loop is modelled one clock reading at a time by
  `CycleStep`. It fires only when the time elapsed since the cycle started
  reaches the cycle length. When it fires it restarts the cycle at the current
  time, flips the phase, sends the new phase, and draws the next cycle length
  as `rand() % 2001 + 4000` milliseconds. `WaitForGreen` receives until it gets
  a green.
- **`Simulation`** (`simulation.dfy`): `simulate()` followed by any finite
  series of clock readings. Until anything receives, the queue holds green,
  red, green, … and the reported phase is the phase sent last.

Clock readings are `nat` milliseconds, and `rand()` results are arbitrary
`nat` values; both are parameters.

## Model

| member | source | states |
|---|---|---|
| MessageQueue.Send | src/TrafficLight.cpp:27-38 | the queue grows by one; every earlier message keeps its place; the new message is at the back |
| MessageQueue.Receive | src/TrafficLight.cpp:16-24 | needs a non-empty queue; the queue left plus the message taken, put back at the end, is the original queue, so the message is the last one sent |
| MessageQueue.ReceiveN | src/TrafficLight.cpp:16-24 | n receives in a row return the last n messages, newest first, and leave exactly the first length-minus-n messages |
| MessageQueue.SendThenReceive | src/TrafficLight.cpp:20-35 | receiving right after `send(m)` returns `m` and restores the queue as it was before the send |
| MessageQueue.ReceiveThenSend | src/TrafficLight.cpp:20-35 | sending back the message just received restores the queue |
| MessageQueue.SendAllAppends | src/TrafficLight.cpp:27-38 | sending a batch of messages one by one appends them to the queue in send order |
| MessageQueue.LifoRoundTrip | src/TrafficLight.cpp:20-35 | after n sends, n receives return the sent values in reverse send order and leave the queue as it was before the sends |
| TrafficLight.NewLight | src/TrafficLight.cpp:42-45 | a newly constructed light shows red and has an empty queue |
| TrafficLight.GetCurrentPhase | src/TrafficLight.cpp:59-62 | reports the light's phase and changes nothing; on a new light it is red, and after any run of the timer loop without receivers it is the last phase sent (see `Simulation.CurrentPhaseIsLastSent`) |
| TrafficLight.Toggle | src/TrafficLight.cpp:111-115 | flipping always changes the phase |
| TrafficLight.ToggleTwice | src/TrafficLight.cpp:111-115 | flipping twice gives back the original phase |
| TrafficLight.CycleDuration | src/TrafficLight.cpp:120 | for every non-negative `rand()` value, the cycle length lies in [4000, 6000] ms |
| TrafficLight.CycleDurationCovers | src/TrafficLight.cpp:120 | every length in [4000, 6000] ms is `CycleDuration` of some `rand()` value of at most 2000, and the timer loop takes each cycle length from `CycleDuration` (the contracts of `StartTimer` and `CycleStep`) |
| TrafficLight.StartTimer | src/TrafficLight.cpp:87-94 | the first cycle starts at the first clock reading, and its length is `CycleDuration` of the first `rand()` value, so it lies in [4000, 6000] ms |
| TrafficLight.CycleStep | src/TrafficLight.cpp:101-120 | a step fires exactly when the elapsed time reaches the cycle length; a step that does not fire changes nothing; a firing step flips the phase, sends the new phase, restarts the cycle at the current time, and takes the next length from `CycleDuration` of the `rand()` value, within [4000, 6000] ms |
| TrafficLight.FiringWindow | src/TrafficLight.cpp:94-120 | from a cycle length in range, a step never fires before 4000 ms have elapsed, and always fires once 6000 ms have elapsed |
| TrafficLight.WaitForGreen | src/TrafficLight.cpp:47-57 | needs a green in the queue; the phase is unchanged; the queue left is a proper prefix of the original; the message just past that prefix is green; every message after it, all of which were received and discarded, is red |
| TrafficLight.WaitForGreenStopsAtLastGreen | src/TrafficLight.cpp:53-56 | the queue left is exactly the part of the original before its last green |
| Simulation.Start | src/TrafficLight.cpp:87-94 | `simulate()` on a new light starts with a red light, an empty queue, and a first cycle that starts at the first clock reading and whose length is `CycleDuration` of the first `rand()` value, so it lies in [4000, 6000] ms |
| Simulation.StepKeepsAlternating | src/TrafficLight.cpp:108-117 | one loop step keeps the queue green, red, green, … with the phase equal to the last message sent, and keeps the cycle length in range |
| Simulation.Run | src/TrafficLight.cpp:97-124 | the loop only ever appends to the queue, at most one message per clock reading; the phase ends where it started exactly when an even number of messages was sent; a cycle length in range stays in range |
| Simulation.RunKeepsAlternating | src/TrafficLight.cpp:97-124 | any finite number of loop steps keeps the same invariant |
| Simulation.CurrentPhaseIsLastSent | src/TrafficLight.cpp:108-117 | however long the loop runs without receivers, `getCurrentPhase` reports the last phase sent, or red if nothing was sent, and the cycle length stays in [4000, 6000] ms |
| Simulation.WaitOnAlternating | src/TrafficLight.cpp:47-57 | on a queue filled only by the timer loop, `waitForGreen` consumes one message if the light shows green and two (a red, then a green) if it shows red |

## Left out

- Mutex, condition variable, `notify_one` and the lock guards. They only synchronise. Blocking in `receive` appears only as its non-empty precondition, and blocking in `waitForGreen` as the precondition that a green is queued.
- The thread started by `simulate` and the base class's thread container. The model runs the timer loop sequentially, with no concurrent receivers.
- The unsynchronised read of the phase by `getCurrentPhase` racing the timer thread. It has no sequential meaning. `GetCurrentPhase` is a pure observer of the phase.
- `sleep_for` calls (the 1 ms pauses, and the sleep for the rest of the cycle) and the steady clock. Each clock reading is a `nat` input to `CycleStep`.
- The `rand()` generator and its distribution. Its result is any `nat`, so the modulo bias of `rand() % 2001` is not modelled.
- The endless `while(true)` loop. It is modelled as `Run` over any finite list of clock readings.
- The 64-bit millisecond counts. Times are unbounded naturals, so wrap-around, which is centuries away, is not modelled.
- A second call to `simulate` would start two loops racing on the phase. This is outside the sequential model.
