/** The traffic light: a red/green phase that the background loop toggles
    once the cycle duration has elapsed since the last toggle, publishing each
    new phase into the light's message queue, and the wait for green that
    drains that queue. Clock readings become integers counted in the clock's
    own ticks, the random cycle duration a parameter, and the thread an
    ordinary call. */
module TrafficLights {
  import opened MessageQueues

  datatype Phase = Red | Green

  /** The other phase: there are only two, so this pins the result down. */
  function Toggle(p: Phase): (r: Phase)
    ensures r != p
  {
    if p == Red then Green else Red
  }

  /** The phase after `n` toggles starting from `p`. */
  function Flip(p: Phase, n: nat): (r: Phase)
  {
    if n == 0 then p else Toggle(Flip(p, n - 1))
  }

  /** An even number of toggles returns to the start, an odd number gives
      the other phase. */
  lemma {:induction false} FlipParity(p: Phase, n: nat)
    ensures Flip(p, n) == if n % 2 == 0 then p else Toggle(p)
  {
    if n > 0 {
      FlipParity(p, n - 1);
    }
  }

  /** The phases published by `n` toggles starting from `p`, in order. */
  function Published(p: Phase, n: nat): (r: seq<Phase>)
    ensures |r| == n
  {
    if n == 0 then [] else Published(p, n - 1) + [Flip(p, n)]
  }

  lemma {:induction false} PublishedAt(p: Phase, n: nat, i: nat)
    requires i < n
    ensures Published(p, n)[i] == Flip(p, i + 1)
  {
    if i < n - 1 {
      PublishedAt(p, n - 1, i);
    }
  }

  /** Alternation: the first published phase differs from the phase the
      light was in, and no phase is published twice in a row. */
  lemma PublishedAlternates(p: Phase, n: nat)
    ensures n > 0 ==> Published(p, n)[0] != p
    ensures forall i :: 0 < i < n ==> Published(p, n)[i] != Published(p, n)[i - 1]
  {
    if n > 0 {
      PublishedAt(p, n, 0);
    }
    forall i | 0 < i < n
      ensures Published(p, n)[i] != Published(p, n)[i - 1]
    {
      PublishedAt(p, n, i);
      PublishedAt(p, n, i - 1);
    }
  }

  /** From a new light (red), the published phases are green, red, green, ... */
  lemma PublishedFromRed(n: nat, i: nat)
    requires i < n
    ensures Published(Red, n)[i] == if i % 2 == 0 then Green else Red
  {
    PublishedAt(Red, n, i);
    FlipParity(Red, i + 1);
  }

  /** Of any two consecutive published phases one is green, so a waiter that
      receives two consecutive publications has received green. */
  lemma GreenWithinTwo(p: Phase, n: nat, i: nat)
    requires i + 1 < n
    ensures Green in Published(p, n)[i..i + 2]
  {
    PublishedAlternates(p, n);
    assert Published(p, n)[i..i + 2] == [Published(p, n)[i], Published(p, n)[i + 1]];
  }

  /** How many clock ticks make one millisecond (positive for any clock). */
  type TicksPerMs = n: nat | n > 0 witness 1

  /** A clock difference converted to whole milliseconds the way
      `duration_cast<milliseconds>` does: truncated toward zero. */
  function ElapsedMs(ticks: int, ticksPerMs: TicksPerMs): (ms: int)
    ensures ticks >= 0 ==> 0 <= ms && ms * ticksPerMs <= ticks < ms * ticksPerMs + ticksPerMs
    ensures ticks < 0 ==> ms <= 0 && ms * ticksPerMs - ticksPerMs < ticks <= ms * ticksPerMs
  {
    if ticks >= 0 then
      DivisionBounds(ticks, ticksPerMs);
      ticks / ticksPerMs
    else
      DivisionBounds(-ticks, ticksPerMs);
      assert -((-ticks) / ticksPerMs) * ticksPerMs == -(((-ticks) / ticksPerMs) * ticksPerMs);
      -((-ticks) / ticksPerMs)
  }

  lemma DivisionBounds(n: nat, d: TicksPerMs)
    ensures 0 <= n / d && (n / d) * d <= n < (n / d) * d + d
  {
    assert n == (n / d) * d + n % d;
  }

  /** True when `sub` can be obtained from `s` by deleting elements: its
      elements occur in `s` in the same order. */
  ghost predicate Subsequence(sub: seq<int>, s: seq<int>)
    decreases |s|
  {
    if sub == [] then true
    else if s == [] then false
    else (sub[0] == s[0] && Subsequence(sub[1..], s[1..])) || Subsequence(sub, s[1..])
  }

  /** Whether a poll at clock reading `now` toggles, the last toggle (or the
      start) having been at `lastUpdate`: the whole milliseconds elapsed since
      then have reached the cycle duration. */
  predicate DeadlineReached(lastUpdate: int, now: int, ticksPerMs: TicksPerMs, cycleDuration: real)
  {
    ElapsedMs(now - lastUpdate, ticksPerMs) as real >= cycleDuration
  }

  /** The clock readings of the polling loop at which it toggles, given that
      the last toggle (or the start) was at `lastUpdate`. */
  function ToggleTimes(lastUpdate: int, readings: seq<int>, ticksPerMs: TicksPerMs, cycleDuration: real): (r: seq<int>)
    ensures |r| <= |readings|
    decreases |readings|
  {
    if readings == [] then []
    else if DeadlineReached(lastUpdate, readings[0], ticksPerMs, cycleDuration) then
      [readings[0]] + ToggleTimes(readings[0], readings[1..], ticksPerMs, cycleDuration)
    else ToggleTimes(lastUpdate, readings[1..], ticksPerMs, cycleDuration)
  }

  /** Toggles happen only at poll readings, in the order of the readings, and
      two consecutive toggles (and the last update and the first toggle) lie
      at least the cycle duration apart. */
  lemma {:induction false} ToggleTimesSpaced(lastUpdate: int, readings: seq<int>, ticksPerMs: TicksPerMs, cycleDuration: real)
    ensures var r := ToggleTimes(lastUpdate, readings, ticksPerMs, cycleDuration);
      && Subsequence(r, readings)
      && (|r| > 0 ==> DeadlineReached(lastUpdate, r[0], ticksPerMs, cycleDuration))
      && (forall i :: 0 < i < |r| ==> DeadlineReached(r[i - 1], r[i], ticksPerMs, cycleDuration))
    decreases |readings|
  {
    if readings != [] {
      var rest := readings[1..];
      ToggleTimesSpaced(readings[0], rest, ticksPerMs, cycleDuration);
      ToggleTimesSpaced(lastUpdate, rest, ticksPerMs, cycleDuration);
      var r := ToggleTimes(lastUpdate, readings, ticksPerMs, cycleDuration);
      if DeadlineReached(lastUpdate, readings[0], ticksPerMs, cycleDuration) {
        assert r[1..] == ToggleTimes(readings[0], rest, ticksPerMs, cycleDuration);
      }
    }
  }

  /** Peeling the first of the remaining readings off the toggle schedule. */
  lemma ToggleTimesUnfold(lastUpdate: int, readings: seq<int>, i: nat, ticksPerMs: TicksPerMs, cycleDuration: real)
    requires i < |readings|
    ensures ToggleTimes(lastUpdate, readings[i..], ticksPerMs, cycleDuration) ==
      if DeadlineReached(lastUpdate, readings[i], ticksPerMs, cycleDuration)
      then [readings[i]] + ToggleTimes(readings[i], readings[i + 1..], ticksPerMs, cycleDuration)
      else ToggleTimes(lastUpdate, readings[i + 1..], ticksPerMs, cycleDuration)
  {
    assert readings[i..][0] == readings[i] && readings[i..][1..] == readings[i + 1..];
  }

  /** A poll that comes too early never toggles: with readings that all lie
      less than the cycle duration after the last toggle, nothing happens. */
  lemma {:induction false} NoToggleBeforeDeadline(lastUpdate: int, readings: seq<int>, ticksPerMs: TicksPerMs, cycleDuration: real)
    requires forall i :: 0 <= i < |readings| ==> !DeadlineReached(lastUpdate, readings[i], ticksPerMs, cycleDuration)
    ensures ToggleTimes(lastUpdate, readings, ticksPerMs, cycleDuration) == []
    decreases |readings|
  {
    if readings != [] {
      NoToggleBeforeDeadline(lastUpdate, readings[1..], ticksPerMs, cycleDuration);
    }
  }

  /** No toggle is skipped: the first poll that reaches the deadline toggles,
      and the schedule then starts again from that poll's reading. */
  lemma {:induction false} FirstToggleAtDeadline(lastUpdate: int, readings: seq<int>, k: nat, ticksPerMs: TicksPerMs, cycleDuration: real)
    requires k < |readings|
    requires forall j :: 0 <= j < k ==> !DeadlineReached(lastUpdate, readings[j], ticksPerMs, cycleDuration)
    requires DeadlineReached(lastUpdate, readings[k], ticksPerMs, cycleDuration)
    ensures ToggleTimes(lastUpdate, readings, ticksPerMs, cycleDuration)
      == [readings[k]] + ToggleTimes(readings[k], readings[k + 1..], ticksPerMs, cycleDuration)
    decreases k
  {
    if k > 0 {
      FirstToggleAtDeadline(lastUpdate, readings[1..], k - 1, ticksPerMs, cycleDuration);
      assert readings[1..][k..] == readings[k + 1..];
    }
  }

  class TrafficLight {
    var currentPhase: Phase
    const messageQueue: MessageQueue<Phase>

    /** The queue holds at most one message, and a pending message is the
        phase the light is in: each toggle publishes the new phase. */
    ghost predicate Valid()
      reads this, messageQueue
    {
      messageQueue.Valid() &&
      (messageQueue.messages != [] ==> messageQueue.messages == [currentPhase])
    }

    /** A new light is red and nothing has been published. */
    constructor ()
      ensures Valid()
      ensures currentPhase == Red
      ensures fresh(messageQueue) && messageQueue.messages == [] && messageQueue.sent == []
    {
      currentPhase := Red;
      messageQueue := new MessageQueue();
    }

    /** One poll of the background loop, `elapsed` milliseconds after the last
        toggle. Once the cycle duration is reached the phase flips and the new
        phase replaces whatever was pending in the queue; before that, nothing
        changes. */
    method Step(elapsed: int, cycleDuration: real) returns (toggled: bool)
      requires Valid()
      modifies this, messageQueue
      ensures Valid()
      ensures toggled <==> elapsed as real >= cycleDuration
      ensures toggled ==> currentPhase == Toggle(old(currentPhase)) && messageQueue.messages == [currentPhase]
      ensures !toggled ==> currentPhase == old(currentPhase) && messageQueue.messages == old(messageQueue.messages)
      ensures messageQueue.sent == old(messageQueue.sent) + (if toggled then [currentPhase] else [])
    {
      toggled := elapsed as real >= cycleDuration;
      if toggled {
        if currentPhase == Red {
          currentPhase := Green;
        } else {
          currentPhase := Red;
        }
        messageQueue.Send(currentPhase);
      }
    }

    /** The background loop, run over a finite series of clock readings taken
        at successive polls, starting with the reading `start`. Each poll
        converts the ticks since the last toggle to whole milliseconds and
        hands them to `Step`. Returns the reading of the last toggle, and (as
        ghost) the phases it published. */
    method CycleThroughPhases(start: int, readings: seq<int>, ticksPerMs: TicksPerMs, cycleDuration: real)
      returns (lastUpdate: int, ghost published: seq<Phase>)
      requires Valid()
      modifies this, messageQueue
      ensures Valid()
      ensures var toggles := ToggleTimes(start, readings, ticksPerMs, cycleDuration);
        && published == Published(old(currentPhase), |toggles|)
        && currentPhase == Flip(old(currentPhase), |toggles|)
        && lastUpdate == (if toggles == [] then start else toggles[|toggles| - 1])
        && messageQueue.messages == (if toggles == [] then old(messageQueue.messages) else [currentPhase])
      ensures messageQueue.sent == old(messageQueue.sent) + published
    {
      ghost var phase0 := currentPhase;
      ghost var done: seq<int> := [];
      lastUpdate, published := start, [];
      var i := 0;
      while i < |readings|
        invariant 0 <= i <= |readings|
        invariant Valid()
        invariant ToggleTimes(start, readings, ticksPerMs, cycleDuration) == done + ToggleTimes(lastUpdate, readings[i..], ticksPerMs, cycleDuration)
        invariant lastUpdate == if done == [] then start else done[|done| - 1]
        invariant currentPhase == Flip(phase0, |done|)
        invariant published == Published(phase0, |done|)
        invariant messageQueue.messages == if done == [] then old(messageQueue.messages) else [currentPhase]
        invariant messageQueue.sent == old(messageQueue.sent) + published
      {
        ToggleTimesUnfold(lastUpdate, readings, i, ticksPerMs, cycleDuration);
        var toggled := Step(ElapsedMs(readings[i] - lastUpdate, ticksPerMs), cycleDuration);
        if toggled {
          assert done + ([readings[i]] + ToggleTimes(readings[i], readings[i + 1..], ticksPerMs, cycleDuration))
              == (done + [readings[i]]) + ToggleTimes(readings[i], readings[i + 1..], ticksPerMs, cycleDuration);
          done := done + [readings[i]];
          lastUpdate := readings[i];
          published := published + [currentPhase];
        }
        i := i + 1;
      }
      assert readings[i..] == [];
    }

    /** The wait for green, over the phases its successive receive calls
        return. It stops right after the first green; `consumed` is the number
        of receive calls made, and `green` says whether one returned green
        (if not, the real wait would go on blocking). */
    method WaitForGreen(received: seq<Phase>) returns (consumed: nat, green: bool)
      ensures consumed <= |received|
      ensures green <==> Green in received
      ensures green ==> consumed > 0 && received[consumed - 1] == Green
      ensures !green ==> consumed == |received|
      ensures forall j :: 0 <= j < consumed - 1 ==> received[j] == Red
    {
      consumed := 0;
      while consumed < |received|
        invariant consumed <= |received|
        invariant forall j :: 0 <= j < consumed ==> received[j] == Red
      {
        var msg := received[consumed];
        consumed := consumed + 1;
        if msg == Green {
          return consumed, true;
        }
      }
      return consumed, false;
    }
  }

  /** A new light polled once the cycle duration has elapsed turns green and
      publishes green, so a waiter's first receive returns green and leaves
      the queue empty. A poll before the deadline leaves it red. */
  method FirstToggleScenario(elapsed: int, cycleDuration: real) returns (phase: Phase, got: Option<Phase>, left: nat)
    ensures elapsed as real >= cycleDuration ==> phase == Green && got == Some(Green) && left == 0
    ensures elapsed as real < cycleDuration ==> phase == Red && got == None && left == 0
  {
    var light := new TrafficLight();
    var toggled := light.Step(elapsed, cycleDuration);
    phase := light.currentPhase;
    if |light.messageQueue.messages| > 0 {
      var msg := light.messageQueue.Receive();
      got := Some(msg);
    } else {
      got := None;
    }
    left := |light.messageQueue.messages|;
  }
}
