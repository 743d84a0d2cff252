/**
  What both connection handlers see and do: the values `ReadString('\n')`
  hands back, the `ApiResponse` envelope they write, and the trace of reads
  and writes one handler performs on its connection.
 */
module Conn {
  import opened Strings
  import opened Http

  /** One `ReadString('\n')` result: a line (error nil) or an error. */
  datatype ReadEvent = Line(text: String) | ReadError(message: String)

  /** The text of the error a clean end of stream reports. */
  const EofMessage: String := "EOF"

  /** The line that ends a request. */
  const Terminator: String := "\n"

  /** The handlers test `err.Error() == "EOF"`, so any error with that text counts as end of stream. */
  predicate IsEof(e: ReadEvent)
  {
    e.ReadError? && e.message == EofMessage
  }

  /** A read after which the loops read again: a line that is not exactly the terminator. */
  predicate Continues(e: ReadEvent)
  {
    e.Line? && e.text != Terminator
  }

  /** What `ReadString` guarantees of a successful read: the text ends at its first newline. */
  predicate Delivered(e: ReadEvent)
  {
    e.Line? ==> |e.text| > 0 && e.text[|e.text| - 1] == '\n' && '\n' !in e.text[..|e.text| - 1]
  }

  /**
    The position of the first event that stops a read loop (an error or the
    terminator line), or `|events|` when every event is a data line.
   */
  function StopIndex(events: seq<ReadEvent>): (k: nat)
    ensures k <= |events|
    ensures forall i :: 0 <= i < k ==> Continues(events[i])
    ensures k < |events| ==> !Continues(events[k])
  {
    if |events| == 0 || !Continues(events[0]) then 0
    else 1 + StopIndex(events[1..])
  }

  /** Appending events after a stop does not move it. */
  lemma {:induction false} StopIndexAppend(events: seq<ReadEvent>, more: seq<ReadEvent>)
    requires StopIndex(events) < |events|
    ensures StopIndex(events + more) == StopIndex(events)
  {
    var k := StopIndex(events);
    var k' := StopIndex(events + more);
    assert (events + more)[k] == events[k];
  }

  /** A prefix that ends before the stop has no stop of its own; one that reaches past it has the same stop. */
  lemma {:induction false} StopIndexPrefix(events: seq<ReadEvent>, n: nat)
    requires n <= |events|
    ensures n <= StopIndex(events) ==> StopIndex(events[..n]) == n
    ensures n > StopIndex(events) ==> StopIndex(events[..n]) == StopIndex(events)
  {
    var k := StopIndex(events);
    var k' := StopIndex(events[..n]);
    if k' < n {
      assert events[..n][k'] == events[k'];
    }
    if n > k {
      assert events[..n][k] == events[k];
    }
  }

  /** The payload of an envelope: `nil`, a parsed request, or a raw line. */
  datatype Payload = Null | RequestData(request: Request) | Text(line: String)

  /** `ApiResponse`; one is written per output line, followed by a newline. */
  datatype Envelope = Envelope(message: String, code: int, data: Payload)

  /** One action of a handler on its connection. */
  datatype Action = Read(event: ReadEvent) | Write(envelope: Envelope)

  /**
    How a handler ends: it returned, it is blocked waiting for a read past the
    given events, or it crashed on a panic.
   */
  datatype Ending = Returned | Blocked | Crashed(panic: Panic)

  datatype Session = Session(trace: seq<Action>, ending: Ending)

  /** The read actions for `events`, in order. */
  function ReadsOf(events: seq<ReadEvent>): seq<Action>
  {
    seq(|events|, i requires 0 <= i < |events| => Read(events[i]))
  }

  /** The envelopes written in `trace`, in order. */
  function Written(trace: seq<Action>): (envelopes: seq<Envelope>)
    ensures |envelopes| <= |trace|
    ensures forall i :: 0 <= i < |envelopes| ==> Write(envelopes[i]) in trace
  {
    if |trace| == 0 then []
    else
      var last := trace[|trace| - 1];
      var front := Written(trace[..|trace| - 1]);
      assert forall a :: a in trace[..|trace| - 1] ==> a in trace;
      if last.Write? then front + [last.envelope] else front
  }

  /** Writing is compositional: the envelopes of `a + b` are those of `a` then those of `b`. */
  lemma {:induction false} WrittenAppend(a: seq<Action>, b: seq<Action>)
    ensures Written(a + b) == Written(a) + Written(b)
    decreases |b|
  {
    if |b| == 0 {
      assert a + b == a;
    } else {
      var b' := b[..|b| - 1];
      assert (a + b)[..|a + b| - 1] == a + b';
      assert (a + b)[|a + b| - 1] == b[|b| - 1];
      WrittenAppend(a, b');
    }
  }

  /** Reading writes nothing. */
  lemma {:induction false} WrittenReads(events: seq<ReadEvent>)
    ensures Written(ReadsOf(events)) == []
    decreases |events|
  {
    if |events| > 0 {
      var front := events[..|events| - 1];
      assert ReadsOf(events)[..|events| - 1] == ReadsOf(front);
      WrittenReads(front);
    }
  }

  lemma {:induction false} TakeOfAppend<T>(a: seq<T>, b: seq<T>, n: nat)
    requires n <= |a|
    ensures (a + b)[..n] == a[..n]
  {
  }

  lemma {:induction false} TakeOfTake<T>(a: seq<T>, n: nat, m: nat)
    requires m <= n <= |a|
    ensures a[..n][..m] == a[..m]
  {
  }

  /** Reading one more event appends one read action. */
  lemma {:induction false} ReadsOfNext(events: seq<ReadEvent>, i: nat)
    requires i < |events|
    ensures ReadsOf(events[..i + 1]) == ReadsOf(events[..i]) + [Read(events[i])]
  {
    var a := ReadsOf(events[..i + 1]);
    var b := ReadsOf(events[..i]) + [Read(events[i])];
    assert |a| == |b|;
    forall j | 0 <= j < |a|
      ensures a[j] == b[j]
    {
      assert events[..i + 1][j] == events[j];
    }
  }

  /** The reads of a prefix are a prefix of the reads. */
  lemma {:induction false} ReadsOfPrefix(events: seq<ReadEvent>, n: nat)
    requires n <= |events|
    ensures ReadsOf(events[..n]) == ReadsOf(events)[..n]
  {
  }
}
