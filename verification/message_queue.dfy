/**
  The message queue of the traffic light, with its mutex and condition
  variable removed. What is left is a sequence: `Send` appends at the back
  and `Receive` takes from the back, so the queue behaves as a stack
  (last in, first out). A `Receive` that would block on an empty queue is
  modelled by the precondition that the queue is non-empty.
 */
module MessageQueue {

  /** The outcome of one `Receive`: the message taken and the queue left behind. */
  datatype Received<T> = Received(msg: T, rest: seq<T>)

  /** The outcome of several receives in a row: the messages taken, in the order taken, and the queue left behind. */
  datatype Drained<T> = Drained(msgs: seq<T>, rest: seq<T>)

  /** Appends `m` at the back; every message already queued keeps its place. */
  function Send<T>(q: seq<T>, m: T): (q': seq<T>)
    ensures |q'| == |q| + 1
    ensures forall i :: 0 <= i < |q| ==> q'[i] == q[i]
    ensures q'[|q|] == m
  {
    q + [m]
  }

  /** Takes the most recently sent message off the back of a non-empty queue. */
  function Receive<T>(q: seq<T>): (r: Received<T>)
    requires |q| > 0
    ensures |r.rest| == |q| - 1
    ensures r.rest + [r.msg] == q
  {
    Received(q[|q| - 1], q[..|q| - 1])
  }

  /** Sends every message of `ms`, first to last. */
  function SendAll<T>(q: seq<T>, ms: seq<T>): seq<T>
    decreases |ms|
  {
    if |ms| == 0 then q else SendAll(Send(q, ms[0]), ms[1..])
  }

  /** `n` receives in a row; the messages come out in the order received. */
  function ReceiveN<T>(q: seq<T>, n: nat): (r: Drained<T>)
    requires n <= |q|
    ensures |r.msgs| == n
    ensures r.rest == q[..|q| - n]
    ensures forall i :: 0 <= i < n ==> r.msgs[i] == q[|q| - 1 - i]
  {
    if n == 0 then Drained([], q)
    else
      var first := Receive(q);
      var more := ReceiveN(first.rest, n - 1);
      Drained([first.msg] + more.msgs, more.rest)
  }

  /** Reference definition of a reversed sequence. */
  function Reverse<T>(s: seq<T>): seq<T>
  {
    if |s| == 0 then [] else Reverse(s[1..]) + [s[0]]
  }

  lemma {:induction false} ReverseIndex<T>(s: seq<T>)
    ensures |Reverse(s)| == |s|
    ensures forall i :: 0 <= i < |s| ==> Reverse(s)[i] == s[|s| - 1 - i]
  {
    if |s| > 0 {
      ReverseIndex(s[1..]);
      var r := Reverse(s);
      assert r == Reverse(s[1..]) + [s[0]];
      forall i | 0 <= i < |s|
        ensures r[i] == s[|s| - 1 - i]
      {
        if i < |s| - 1 {
          assert r[i] == Reverse(s[1..])[i] == s[1..][|s| - 2 - i];
        }
      }
    }
  }

  /** Receiving right after sending hands back the message just sent and the queue as it was. */
  lemma SendThenReceive<T>(q: seq<T>, m: T)
    ensures Receive(Send(q, m)) == Received(m, q)
  {
  }

  /** Sending back what was just received restores the queue. */
  lemma ReceiveThenSend<T>(q: seq<T>)
    requires |q| > 0
    ensures Send(Receive(q).rest, Receive(q).msg) == q
  {
  }

  /** Sending a batch of messages is appending them, in order. */
  lemma {:induction false} SendAllAppends<T>(q: seq<T>, ms: seq<T>)
    ensures SendAll(q, ms) == q + ms
    decreases |ms|
  {
    if |ms| > 0 {
      SendAllAppends(Send(q, ms[0]), ms[1..]);
      assert Send(q, ms[0]) + ms[1..] == q + ms;
    }
  }

  /**
    LIFO round trip: after sending `ms`, as many receives return them in
    reverse send order and leave the queue exactly as it was before.
   */
  lemma LifoRoundTrip<T>(q: seq<T>, ms: seq<T>)
    ensures |ms| <= |SendAll(q, ms)|
    ensures ReceiveN(SendAll(q, ms), |ms|) == Drained(Reverse(ms), q)
  {
    SendAllAppends(q, ms);
    ReverseIndex(ms);
    var r := ReceiveN(q + ms, |ms|);
    assert (q + ms)[..|q + ms| - |ms|] == q;
    assert r.msgs == Reverse(ms);
  }
}
