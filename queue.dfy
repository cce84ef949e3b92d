/**
 * The broker's message queue (src/queue.rs). A queue is a double-ended queue of
 * strings: `add_message` pushes at the front and `retrieve_message` pops at the
 * back, so read from back to front the deque lists the messages oldest first.
 * Here a deque is a `seq<string>` whose index 0 is the front.
 */
module MessageQueue {

  /** The messages of deque `d` in the order they arrived, oldest first. */
  function Arrival(d: seq<string>): (a: seq<string>)
    ensures |a| == |d|
    ensures forall i :: 0 <= i < |d| ==> a[i] == d[|d| - 1 - i]
  {
    if d == [] then [] else Arrival(d[1..]) + [d[0]]
  }

  /** The deque after `add_message(m)`: `m` joins the queue as its newest message. */
  function Added(d: seq<string>, m: string): (r: seq<string>)
    ensures Arrival(r) == Arrival(d) + [m]
  {
    [m] + d
  }

  /** The reply and the deque after `retrieve_message()`: the empty string when
      there is nothing to retrieve, otherwise the oldest message, which leaves. */
  function Retrieved(d: seq<string>): (r: (string, seq<string>))
    ensures d == [] ==> r == ("", [])
    ensures d != [] ==> r.0 == Arrival(d)[0] && Arrival(r.1) == Arrival(d)[1..]
    ensures d != [] ==> |r.1| == |d| - 1
  {
    if d == [] then ("", [])
    else
      var rest := d[..|d| - 1];
      assert Arrival(rest) == Arrival(d)[1..];
      (d[|d| - 1], rest)
  }

  /** `Queue` from src/queue.rs: one `VecDeque<String>` updated in place. */
  class Queue {
    var deque: seq<string>

    /** `new_queue()`: a queue with no messages. */
    constructor ()
      ensures deque == [] && Arrival(deque) == []
    {
      deque := [];
    }

    /** `add_message`: `message` becomes the newest message; the others keep their order. */
    method AddMessage(message: string)
      modifies this
      ensures deque == Added(old(deque), message)
      ensures Arrival(deque) == Arrival(old(deque)) + [message]
    {
      deque := [message] + deque;
    }

    /** `retrieve_message`: the empty string on an empty queue, which stays empty;
        otherwise the oldest message, which is removed and nothing else is. */
    method RetrieveMessage() returns (message: string)
      modifies this
      ensures (message, deque) == Retrieved(old(deque))
      ensures old(deque) == [] ==> message == "" && deque == []
      ensures old(deque) != [] ==> message == Arrival(old(deque))[0]
      ensures old(deque) != [] ==> Arrival(deque) == Arrival(old(deque))[1..]
    {
      if |deque| == 0 {
        return "";
      }
      message := deque[|deque| - 1];
      deque := deque[..|deque| - 1];
    }
  }

  /** The deque after adding `ms[0]`, `ms[1]`, ... in that order. */
  function AddAll(d: seq<string>, ms: seq<string>): seq<string>
    decreases |ms|
  {
    if ms == [] then d else AddAll(Added(d, ms[0]), ms[1..])
  }

  /** The replies of `n` retrievals in a row, and the deque they leave. */
  function RetrieveTimes(d: seq<string>, n: nat): (seq<string>, seq<string>)
    decreases n
  {
    if n == 0 then ([], d)
    else
      var (m, d') := Retrieved(d);
      var (ms, rest) := RetrieveTimes(d', n - 1);
      ([m] + ms, rest)
  }

  /** Adding messages appends them, in order, behind the ones already queued. */
  lemma {:induction false} AddAllArrival(d: seq<string>, ms: seq<string>)
    ensures Arrival(AddAll(d, ms)) == Arrival(d) + ms
    decreases |ms|
  {
    if ms != [] {
      AddAllArrival(Added(d, ms[0]), ms[1..]);
      assert ms == [ms[0]] + ms[1..];
    }
  }

  /** `n` retrievals from a queue holding at least `n` messages return its `n`
      oldest messages, oldest first, and leave the rest queued in order. */
  lemma {:induction false} RetrieveTimesArrival(d: seq<string>, n: nat)
    requires n <= |d|
    ensures RetrieveTimes(d, n).0 == Arrival(d)[..n]
    ensures Arrival(RetrieveTimes(d, n).1) == Arrival(d)[n..]
    decreases n
  {
    if n > 0 {
      var (m, d') := Retrieved(d);
      RetrieveTimesArrival(d', n - 1);
      assert Arrival(d)[..n] == [m] + Arrival(d)[1..][..n - 1];
      assert Arrival(d)[n..] == Arrival(d)[1..][n - 1..];
    }
  }

  /** Retrievals from an empty queue all return the empty string and change nothing. */
  lemma {:induction false} RetrieveTimesEmpty(n: nat)
    ensures |RetrieveTimes([], n).0| == n
    ensures forall i :: 0 <= i < n ==> RetrieveTimes([], n).0[i] == ""
    ensures RetrieveTimes([], n).1 == []
    decreases n
  {
    if n > 0 {
      RetrieveTimesEmpty(n - 1);
      assert RetrieveTimes([], n) == ([""] + RetrieveTimes([], n - 1).0, RetrieveTimes([], n - 1).1);
    }
  }

  /** FIFO round trip: adding m1..mn to an empty queue and then retrieving n
      times yields m1..mn in that order and leaves the queue empty. */
  lemma FifoRoundTrip(ms: seq<string>)
    ensures RetrieveTimes(AddAll([], ms), |ms|) == (ms, [])
  {
    var d := AddAll([], ms);
    AddAllArrival([], ms);
    assert Arrival(d) == ms;
    RetrieveTimesArrival(d, |ms|);
    assert ms[..|ms|] == ms;
    var rest := RetrieveTimes(d, |ms|).1;
    assert |Arrival(rest)| == 0;
    assert rest == [];
  }

  /** One operation on a queue. */
  datatype Op = Add(message: string) | Retrieve

  /** The messages a history of operations adds, in order. */
  function AddedBy(ops: seq<Op>): seq<string>
    decreases |ops|
  {
    if ops == [] then []
    else (if ops[0].Add? then [ops[0].message] else []) + AddedBy(ops[1..])
  }

  /** Runs a history of operations from deque `d`: the messages that retrievals
      took out of the queue (a retrieval from an empty queue takes nothing and
      answers the empty string), and the deque left at the end. */
  function Run(d: seq<string>, ops: seq<Op>): (seq<string>, seq<string>)
    decreases |ops|
  {
    if ops == [] then ([], d)
    else match ops[0]
      case Add(m) => Run(Added(d, m), ops[1..])
      case Retrieve =>
        if d == [] then Run(d, ops[1..])
        else
          var (m, d') := Retrieved(d);
          var (served, rest) := Run(d', ops[1..]);
          ([m] + served, rest)
  }

  /** Under any interleaving of additions and retrievals, what was queued and
      then added equals what was retrieved followed by what is still queued:
      nothing is lost or duplicated, and no retrieval returns a message added
      after one that is still present. */
  lemma {:induction false} RunPreservesOrder(d: seq<string>, ops: seq<Op>)
    ensures Arrival(d) + AddedBy(ops) == Run(d, ops).0 + Arrival(Run(d, ops).1)
    decreases |ops|
  {
    if ops != [] {
      match ops[0]
      case Add(m) =>
        RunPreservesOrder(Added(d, m), ops[1..]);
        assert AddedBy(ops) == [m] + AddedBy(ops[1..]);
        Regroup(Arrival(d), [m], AddedBy(ops[1..]));
      case Retrieve =>
        if d == [] {
          RunPreservesOrder(d, ops[1..]);
        } else {
          var (m, d') := Retrieved(d);
          RunPreservesOrder(d', ops[1..]);
          var (served, rest) := Run(d', ops[1..]);
          assert Run(d, ops) == ([m] + served, rest);
          assert Arrival(d) == [m] + Arrival(d') by {
            HeadTail(Arrival(d));
          }
          assert AddedBy(ops) == AddedBy(ops[1..]);
          Regroup([m], Arrival(d'), AddedBy(ops[1..]));
          Regroup([m], served, Arrival(rest));
        }
    }
  }

  /** Concatenation regrouped. */
  lemma Regroup(x: seq<string>, y: seq<string>, z: seq<string>)
    ensures (x + y) + z == x + (y + z)
  {
  }

  /** A non-empty sequence is its head followed by its tail. */
  lemma HeadTail(x: seq<string>)
    requires |x| > 0
    ensures x == [x[0]] + x[1..]
  {
  }
}
