# Traffic light and its latest-wins message queue

A Dafny model of the sequential core of a simulated traffic light:

- `MessageQueues` (`message_queue.dfy`): the `MessageQueue<T>` that carries
  phase changes from the light's background loop to whoever waits for green.
  `Send` clears the backing vector and appends the new message, so an unread
  message is dropped. `Receive` waits until the vector is non-empty, then
  removes and returns its last element. The class keeps the vector as a
  `seq<T>` field. The wait becomes the precondition `|messages| > 0`. Beside
  the class, `Run` gives the meaning of any interleaving of send and receive
  calls as a sequence of calls run one after another. A receive that finds
  the slot empty makes `Run` return `None`: that receive would block.
- `TrafficLights` (`traffic_light.dfy`): the two-valued `Phase`, the
  `TrafficLight` class that owns `currentPhase` and the queue, one poll of
  the background loop (`Step`), the loop itself over a finite series of clock
  readings (`CycleThroughPhases`), and `WaitForGreen`. `WaitForGreen` runs
  over the phases its successive receive calls return.

Clock readings are integers counted in the clock's own ticks, with a
positive number of ticks per millisecond. As `duration_cast<milliseconds>`
does, the ticks since the last toggle are converted to whole milliseconds,
truncated toward zero (`ElapsedMs`). The resulting `long` count is compared
with the `double` cycle duration as an exact `real` comparison. The cycle
duration is a parameter. The comment at src/TrafficLight.cpp:79 asks for "a
random value between 4 and 6 seconds". However, the `mt19937` generator is
built again from the light's id on every poll (src/TrafficLight.cpp:95-98).
Its first output is therefore the same each time, so one light uses one fixed
duration for every cycle. `CycleThroughPhases` accordingly takes one
duration for the whole run.

`Replay` drives a `MessageQueue` object through any sequence of calls with
its own `Send` and `Receive`, and is proved to end exactly as `Run` says. The
lemmas about `Run` therefore hold of the queue object.

## Model

| member | source | states |
|---|---|---|
| `MessageQueues.MessageQueue.Send` | src/TrafficLight.cpp:27-41 | afterwards the queue holds exactly the new message, and any earlier unread message is gone; the message is appended to the ghost log of everything sent |
| `MessageQueues.MessageQueue.Receive` | src/TrafficLight.cpp:10-24 | on a non-empty queue, returns the last element and leaves the queue one element shorter, so with the one pending message it drains the queue |
| `MessageQueues.Replay` | src/TrafficLight.cpp:10-41 | replaying any sequence of calls through the object's Send and Receive blocks exactly when `Run` says so, and otherwise ends with the queue contents and the received values that `Run` gives |
| `MessageQueues.LatestWinsScenario` | src/TrafficLight.cpp:17-39 | send v1, send v2, receive on a fresh queue returns v2 and leaves the queue empty |
| `MessageQueues.RunKeepsAtMostOne` | src/TrafficLight.cpp:36-39 | under any interleaving of sends and receives, a queue that starts with at most one message ends with at most one |
| `MessageQueues.LatestWins` | src/TrafficLight.cpp:36-39 | after sends of v1..vn with no receive between them, the next receive returns vn and empties the queue, whatever was pending before |
| `MessageQueues.ReceivedWereSent` | src/TrafficLight.cpp:17-21 | the values received in an interleaving form a sub-multiset of the pending values plus the sent values: no value is delivered twice |
| `MessageQueues.ReceivesAtMostSends` | src/TrafficLight.cpp:17-21 | from an empty queue, an interleaving never receives more values than it sends |
| `TrafficLights.Toggle` | src/TrafficLight.cpp:106-113 | a toggle always yields the other phase |
| `TrafficLights.FlipParity` | src/TrafficLight.cpp:106-113 | an even number of toggles returns to the starting phase, an odd number gives the other phase |
| `TrafficLights.PublishedAlternates` | src/TrafficLight.cpp:104-116 | the first published phase differs from the phase before it, and no phase is published twice in a row |
| `TrafficLights.PublishedFromRed` | src/TrafficLight.cpp:104-116 | starting from red, the published phases are green, red, green, ... |
| `TrafficLights.GreenWithinTwo` | src/TrafficLight.cpp:104-116 | any two consecutive published phases include green |
| `TrafficLights.ElapsedMs` | src/TrafficLight.cpp:101 | a tick difference becomes whole milliseconds truncated toward zero: the largest count not above it for a non-negative difference, the smallest not below it for a negative one |
| `TrafficLights.ToggleTimesSpaced` | src/TrafficLight.cpp:101-118 | the loop toggles only at poll readings, in reading order (a subsequence), and the first toggle after the last update, and each later toggle after the one before it, comes at least the cycle duration later in whole milliseconds |
| `TrafficLights.FirstToggleAtDeadline` | src/TrafficLight.cpp:101-118 | no toggle is skipped: when the k-th poll is the first to reach the deadline, the first toggle is at that poll, and the schedule restarts from its reading |
| `TrafficLights.NoToggleBeforeDeadline` | src/TrafficLight.cpp:104 | polls that all come before the deadline toggle nothing |
| `TrafficLights.TrafficLight.constructor` | src/TrafficLight.cpp:46-49 | a new light is red and its queue is empty |
| `TrafficLights.TrafficLight.Step` | src/TrafficLight.cpp:104-116 | once elapsed reaches the duration, the phase flips and the queue holds exactly the new phase; before that, neither the phase nor the queue changes; the send log grows by the new phase exactly when it toggles; a pending message always equals the current phase |
| `TrafficLights.TrafficLight.CycleThroughPhases` | src/TrafficLight.cpp:82-126 | over a series of tick readings, with elapsed time truncated to whole milliseconds, the final phase is the start phase flipped once per toggle, the phases actually sent into the queue during the run are exactly the alternating sequence `Published`, one per toggle, the last update is the last toggle's reading, and the queue holds the last published phase |
| `TrafficLights.TrafficLight.WaitForGreen` | src/TrafficLight.cpp:51-60 | stops right after the first green received; every phase received before it was red; with no green at all it consumes everything |
| `TrafficLights.FirstToggleScenario` | src/TrafficLight.cpp:46-116 | a new light polled at or past the duration turns green, and the waiter's receive returns green and empties the queue; before the deadline it stays red with nothing to receive |

## Left out

- Threads, mutex, lock guards and the condition variable (src/TrafficLight.cpp:16-17, 33, 40, 70): the model is sequential. `Run` stands for any interleaving of whole send and receive calls. The blocking wait of `receive` is a precondition on the class method and a `None` result in `Run`.
- `simulate` (src/TrafficLight.cpp:67-72): it only starts a thread running `CycleThroughPhases`. It has no sequential behaviour of its own.
- `getCurrentPhase` (src/TrafficLight.cpp:62-65): an unsynchronized read of the field. The field is `currentPhase`, readable directly.
- `sleep_for` (src/TrafficLight.cpp:58, 90) and `system_clock` (src/TrafficLight.cpp:82, 101, 118): clock readings are parameters, counted in ticks. The reading that sets `lastUpdate` after a toggle is taken to be the same reading as the poll's own.
- `srand`, `mt19937` and the floating-point duration formula (src/TrafficLight.cpp:84, 93-98): the duration is a `real` parameter. Its range [4000, 6000] is not modelled.
- TrafficLights.TrafficLight.CycleThroughPhases: runs over a finite series of readings rather than forever. No upper bound on the time between toggles is stated, because that depends on how often the loop is scheduled.
- TrafficLights.TrafficLight.WaitForGreen: takes the values its receive calls return as a sequence, rather than calling `Receive` on the light's queue. The source would block forever after a sequence without green.
- The commented-out debug printing (src/TrafficLight.cpp:121-123).
