/** The message queue of the traffic light: a single-slot, latest-wins inbox.
    `send` drops whatever is pending and stores the new message; `receive`
    waits until something is pending and takes the last element out.
    The mutex and the condition variable are not modelled: the wait of
    `receive` becomes its precondition. */
module MessageQueues {

  datatype Option<T> = None | Some(value: T)

  /** The queue object; `messages` is the backing vector, and the ghost
      `sent` records every message ever sent, in order. */
  class MessageQueue<T> {
    var messages: seq<T>
    ghost var sent: seq<T>

    /** The slot never holds more than one message. */
    ghost predicate Valid()
      reads this
    {
      |messages| <= 1
    }

    constructor ()
      ensures Valid()
      ensures messages == [] && sent == []
    {
      messages := [];
      sent := [];
    }

    /** Clears the vector, then appends `msg`: whatever was unread is lost. */
    method Send(msg: T)
      modifies this
      ensures Valid()
      ensures messages == [msg]
      ensures sent == old(sent) + [msg]
    {
      messages := [];
      messages := messages + [msg];
      sent := sent + [msg];
    }

    /** Takes the last element out of a non-empty vector; with at most one
        message pending, that drains the queue. */
    method Receive() returns (msg: T)
      requires Valid()
      requires |messages| > 0
      modifies this
      ensures msg == old(messages[|messages| - 1])
      ensures messages == old(messages[..|messages| - 1])
      ensures Valid() && messages == []
      ensures sent == old(sent)
    {
      msg := messages[|messages| - 1];
      messages := messages[..|messages| - 1];
    }
  }

  /** Two sends and then a receive on a fresh queue: the receive returns the
      second message and leaves the queue empty; the first is never seen. */
  method LatestWinsScenario<T>(first: T, second: T) returns (got: T, left: nat)
    ensures got == second
    ensures left == 0
  {
    var q := new MessageQueue<T>();
    q.Send(first);
    q.Send(second);
    got := q.Receive();
    left := |q.messages|;
  }

  /** One call made on the queue by some thread. */
  datatype Call<T> = Send(msg: T) | Receive

  /** What a sequence of calls leaves behind: the slot's final contents and
      the values the receive calls returned, in order. */
  datatype Trace<T> = Trace(slot: seq<T>, received: seq<T>)

  /** The calls of one interleaving, run one after another from a slot holding
      `slot`. None when a receive finds the slot empty: that receive blocks
      until a send that this interleaving does not contain. */
  function Run<T>(slot: seq<T>, calls: seq<Call<T>>): (r: Option<Trace<T>>)
    decreases |calls|
  {
    if calls == [] then Some(Trace(slot, []))
    else match calls[0]
      case Send(m) => Run([m], calls[1..])
      case Receive =>
        if slot == [] then None
        else match Run(slot[..|slot| - 1], calls[1..])
          case None => None
          case Some(t) => Some(Trace(t.slot, [slot[|slot| - 1]] + t.received))
  }

  /** `o` with the values `rs` received in front of those it received. */
  function Prefixed<T>(rs: seq<T>, o: Option<Trace<T>>): (r: Option<Trace<T>>)
  {
    match o
    case None => None
    case Some(t) => Some(Trace(t.slot, rs + t.received))
  }

  lemma PrefixedNothing<T>(o: Option<Trace<T>>)
    ensures Prefixed([], o) == o
  {
    if o.Some? {
      assert [] + o.value.received == o.value.received;
    }
  }

  lemma PrefixedAppend<T>(a: seq<T>, b: seq<T>, o: Option<Trace<T>>)
    ensures Prefixed(a, Prefixed(b, o)) == Prefixed(a + b, o)
  {
    if o.Some? {
      assert a + (b + o.value.received) == (a + b) + o.value.received;
    }
  }

  /** Running the calls from position `i` on: one call, then the rest. */
  lemma RunUnfold<T>(slot: seq<T>, calls: seq<Call<T>>, i: nat)
    requires i < |calls|
    ensures Run(slot, calls[i..]) ==
      match calls[i]
      case Send(m) => Run([m], calls[i + 1..])
      case Receive =>
        if slot == [] then None
        else Prefixed([slot[|slot| - 1]], Run(slot[..|slot| - 1], calls[i + 1..]))
  {
    assert calls[i..][0] == calls[i] && calls[i..][1..] == calls[i + 1..];
  }

  /** Replays `calls` on the queue `q` through its own Send and Receive,
      stopping at a receive that finds the queue empty (that receive would
      block). The outcome is the one `Run` describes, so the properties proved
      about `Run` hold of the queue object. */
  method Replay<T>(q: MessageQueue<T>, calls: seq<Call<T>>) returns (received: seq<T>, blocked: bool)
    requires q.Valid()
    modifies q
    ensures q.Valid()
    ensures blocked <==> Run(old(q.messages), calls) == None
    ensures !blocked ==> Run(old(q.messages), calls) == Some(Trace(q.messages, received))
  {
    received, blocked := [], false;
    var i := 0;
    assert calls[i..] == calls;
    PrefixedNothing(Run(q.messages, calls));
    while i < |calls|
      invariant 0 <= i <= |calls|
      invariant q.Valid()
      invariant Run(old(q.messages), calls) == Prefixed(received, Run(q.messages, calls[i..]))
    {
      RunUnfold(q.messages, calls, i);
      match calls[i] {
        case Send(m) =>
          q.Send(m);
        case Receive =>
          if q.messages == [] {
            blocked := true;
            return;
          }
          var msg := q.Receive();
          PrefixedAppend(received, [msg], Run(q.messages, calls[i + 1..]));
          received := received + [msg];
      }
      i := i + 1;
    }
    assert calls[i..] == [];
    assert received + [] == received;
  }

  /** The values the send calls of `calls` hand to the queue, in order. */
  function SentValues<T>(calls: seq<Call<T>>): (r: seq<T>)
    ensures |r| <= |calls|
    ensures forall i :: 0 <= i < |calls| && calls[i].Send? ==> calls[i].msg in r
    decreases |calls|
  {
    if calls == [] then []
    else match calls[0]
      case Send(m) => [m] + SentValues(calls[1..])
      case Receive => SentValues(calls[1..])
  }

  /** A send call for each element of `vs`, in order. */
  function SendAll<T>(vs: seq<T>): (r: seq<Call<T>>)
    ensures |r| == |vs|
    ensures forall i :: 0 <= i < |vs| ==> r[i] == Send(vs[i])
  {
    seq(|vs|, i requires 0 <= i < |vs| => Send(vs[i]))
  }

  /** Bounded occupancy: whatever the interleaving of sends and receives,
      a slot that starts with at most one message ends with at most one. */
  lemma {:induction false} RunKeepsAtMostOne<T>(slot: seq<T>, calls: seq<Call<T>>)
    requires |slot| <= 1
    requires Run(slot, calls).Some?
    ensures |Run(slot, calls).value.slot| <= 1
    decreases |calls|
  {
    if calls != [] {
      match calls[0]
      case Send(m) => RunKeepsAtMostOne([m], calls[1..]);
      case Receive => RunKeepsAtMostOne(slot[..|slot| - 1], calls[1..]);
    }
  }

  /** Latest wins: after sends of v1, ..., vn and no receive in between, the
      next receive returns vn and leaves the slot empty; v1 .. v(n-1) are
      never observed. */
  lemma {:induction false} LatestWins<T>(slot: seq<T>, vs: seq<T>)
    requires |vs| > 0
    ensures Run(slot, SendAll(vs) + [Receive]) == Some(Trace([], [vs[|vs| - 1]]))
    decreases |vs|
  {
    var calls := SendAll(vs) + [Receive];
    assert calls[0] == Send(vs[0]);
    if |vs| == 1 {
      var last, pending := calls[1..], [vs[0]];
      assert last == [Receive] && last[1..] == [];
      assert pending[..0] == [] && pending[|pending| - 1] == vs[0];
      assert Run(pending[..0], last[1..]) == Some(Trace([], []));
      assert Run(pending, last) == Some(Trace([], [vs[0]] + []));
      assert [vs[0]] + [] == [vs[|vs| - 1]];
      assert calls != [] && calls[0].Send?;
      assert Run(slot, calls) == Run(pending, last);
    } else {
      assert calls[1..] == SendAll(vs[1..]) + [Receive];
      LatestWins([vs[0]], vs[1..]);
    }
  }

  /** No value is delivered twice: every value the receive calls return was
      pending at the start or handed over by a send, counted with multiplicity. */
  lemma {:induction false} ReceivedWereSent<T>(slot: seq<T>, calls: seq<Call<T>>)
    requires Run(slot, calls).Some?
    ensures multiset(Run(slot, calls).value.received) <= multiset(slot) + multiset(SentValues(calls))
    decreases |calls|
  {
    if calls != [] {
      match calls[0]
      case Send(m) =>
        ReceivedWereSent([m], calls[1..]);
      case Receive =>
        var rest := slot[..|slot| - 1];
        ReceivedWereSent(rest, calls[1..]);
        assert slot == rest + [slot[|slot| - 1]];
    }
  }

  /** Starting from an empty slot, no interleaving returns more values than
      it sends: each receive consumes a distinct send. */
  lemma ReceivesAtMostSends<T>(calls: seq<Call<T>>)
    requires Run([], calls).Some?
    ensures |Run([], calls).value.received| <= |SentValues(calls)|
  {
    ReceivedWereSent([], calls);
    var t := Run([], calls).value;
    assert |multiset(t.received)| <= |multiset(SentValues(calls))| by {
      SubMultisetSize(multiset(t.received), multiset(SentValues(calls)));
    }
  }

  lemma SubMultisetSize<T>(a: multiset<T>, b: multiset<T>)
    requires a <= b
    ensures |a| <= |b|
  {
    assert b == a + (b - a);
  }
}
