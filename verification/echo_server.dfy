/**
  The connection handler of the echo server: every line read before the
  terminator line, an error or end of stream is answered at once with a
  `received` envelope carrying the raw line.
 */
module EchoServer {
  import opened Strings
  import opened Conn

  const ReceivedMessage: String := "received"

  /** The envelope answering the data line `line`, newline included. */
  function Echo(line: String): Envelope
  {
    Envelope(ReceivedMessage, 1, Text(line))
  }

  /** Every event of `data` is a data line. */
  predicate AllContinue(data: seq<ReadEvent>)
  {
    forall i :: 0 <= i < |data| ==> Continues(data[i])
  }

  /**
    The actions for a run of data lines: each read is followed by the write
    of its echo, before the next read.
   */
  function EchoTrace(data: seq<ReadEvent>): (t: seq<Action>)
    requires AllContinue(data)
    ensures |t| == 2 * |data|
    ensures forall i :: 0 <= i < |data| ==> t[2 * i] == Read(data[i])
    ensures forall i :: 0 <= i < |data| ==> t[2 * i + 1] == Write(Echo(data[i].text))
  {
    if |data| == 0 then []
    else
      var last := data[|data| - 1];
      EchoTrace(data[..|data| - 1]) + [Read(last), Write(Echo(last.text))]
  }

  /** The echoes of a run of data lines, in order. */
  function Echoes(data: seq<ReadEvent>): seq<Envelope>
    requires AllContinue(data)
  {
    seq(|data|, i requires 0 <= i < |data| && data[i].Line? => Echo(data[i].text))
  }

  /**
    The session of one connection: the data lines before the first stopping
    event are echoed one by one; the stopping event (end of stream, another
    error, or the terminator line) ends the handler without a further write;
    with no stopping event yet the handler is blocked on its next read.
   */
  function EchoSession(events: seq<ReadEvent>): Session
  {
    var k := StopIndex(events);
    if k == |events| then Session(EchoTrace(events), Blocked)
    else Session(EchoTrace(events[..k]) + [Read(events[k])], Returned)
  }

  /** Echoing one more data line appends its read and its write. */
  lemma {:induction false} EchoTraceNext(events: seq<ReadEvent>, i: nat)
    requires i < |events| && AllContinue(events[..i + 1])
    ensures AllContinue(events[..i])
    ensures EchoTrace(events[..i + 1])
      == EchoTrace(events[..i]) + [Read(events[i]), Write(Echo(events[i].text))]
  {
    var data := events[..i + 1];
    assert data[..i] == events[..i];
    assert data[i] == events[i];
  }

  /**
    `handleRequest`: the loop as the Go code writes it, over the reads
    `events`. It agrees with `EchoSession`.
   */
  method HandleRequest(events: seq<ReadEvent>) returns (s: Session)
    ensures s == EchoSession(events)
  {
    var trace: seq<Action> := [];
    var i := 0;
    while true
      invariant i <= StopIndex(events)
      invariant AllContinue(events[..i])
      invariant trace == EchoTrace(events[..i])
      decreases |events| - i
    {
      if i == |events| {
        assert events[..i] == events;
        return Session(trace, Blocked);
      }
      var e := events[i];
      if e.ReadError? {
        if e.message == EofMessage {
          return Session(trace + [Read(e)], Returned);
        }
        break;
      }
      if e.text == Terminator {
        break;
      }
      assert AllContinue(events[..i + 1]) by {
        assert forall j :: 0 <= j < i ==> events[..i + 1][j] == events[..i][j];
      }
      EchoTraceNext(events, i);
      trace := trace + [Read(e), Write(Echo(e.text))];
      i := i + 1;
    }
    s := Session(trace + [Read(events[i])], Returned);
  }

  // ---------------------------------------------------------------------------
  // Properties

  /** The envelopes of a run of data lines are their echoes. */
  lemma {:induction false} WrittenEchoTrace(data: seq<ReadEvent>)
    requires AllContinue(data)
    ensures Written(EchoTrace(data)) == Echoes(data)
    decreases |data|
  {
    if |data| > 0 {
      var front := data[..|data| - 1];
      var last := data[|data| - 1];
      assert AllContinue(front) by {
        assert forall j :: 0 <= j < |front| ==> front[j] == data[j];
      }
      WrittenEchoTrace(front);
      WrittenAppend(EchoTrace(front), [Read(last), Write(Echo(last.text))]);
      WrittenReadThenWrite(last, Echo(last.text));
      EchoesNext(data);
    }
  }

  lemma {:induction false} WrittenReadThenWrite(e: ReadEvent, envelope: Envelope)
    ensures Written([Read(e), Write(envelope)]) == [envelope]
  {
    assert [Read(e), Write(envelope)][..1] == [Read(e)];
    assert [Read(e)][..0] == [];
  }

  lemma {:induction false} EchoesNext(data: seq<ReadEvent>)
    requires |data| > 0 && AllContinue(data)
    ensures AllContinue(data[..|data| - 1])
    ensures Echoes(data) == Echoes(data[..|data| - 1]) + [Echo(data[|data| - 1].text)]
  {
    var front := data[..|data| - 1];
    assert forall j :: 0 <= j < |front| ==> front[j] == data[j];
  }

  /**
    Exactly the data lines before the first stopping event are answered, one
    `received` envelope each with the raw line, in read order; the handler
    returns at the stopping event (end of stream or not) and is blocked
    otherwise.
   */
  lemma {:induction false} EchoesEveryDataLine(events: seq<ReadEvent>)
    ensures var k := StopIndex(events);
      var s := EchoSession(events);
      && AllContinue(events[..k])
      && Written(s.trace) == Echoes(events[..k])
      && (s.ending == Returned <==> k < |events|)
      && (s.ending == Blocked <==> k == |events|)
  {
    var k := StopIndex(events);
    var data := events[..k];
    assert AllContinue(data) by {
      assert forall j :: 0 <= j < k ==> data[j] == events[j];
    }
    WrittenEchoTrace(data);
    if k < |events| {
      WrittenAppend(EchoTrace(data), [Read(events[k])]);
      assert [Read(events[k])][..0] == [];
    } else {
      assert data == events;
    }
  }

  /**
    Each echo is written right after the read of its line and before the
    next read: in the session's actions, reads and writes alternate.
   */
  lemma {:induction false} WriteBeforeNextRead(events: seq<ReadEvent>, i: nat)
    requires i < StopIndex(events)
    ensures var t := EchoSession(events).trace;
      && 2 * i + 1 < |t|
      && t[2 * i] == Read(events[i])
      && t[2 * i + 1] == Write(Echo(events[i].text))
      && (2 * i + 2 < |t| ==> t[2 * i + 2] == Read(events[i + 1]))
  {
    var k := StopIndex(events);
    var data := events[..k];
    assert AllContinue(data) by {
      assert forall j :: 0 <= j < k ==> data[j] == events[j];
    }
    assert data[i] == events[i];
    if i + 1 < k {
      assert data[i + 1] == events[i + 1];
    }
  }

  /** Once the handler has stopped, nothing the peer sends afterwards changes the session. */
  lemma {:induction false} IgnoresAfterStop(events: seq<ReadEvent>, more: seq<ReadEvent>)
    requires StopIndex(events) < |events|
    ensures EchoSession(events + more) == EchoSession(events)
  {
    var k := StopIndex(events);
    StopIndexAppend(events, more);
    TakeOfAppend(events, more, k);
    assert (events + more)[k] == events[k];
  }

  /** The echo trace of a prefix of data lines is a prefix of the echo trace. */
  lemma {:induction false} EchoTracePrefix(data: seq<ReadEvent>, n: nat)
    requires AllContinue(data) && n <= |data|
    ensures AllContinue(data[..n])
    ensures EchoTrace(data[..n]) <= EchoTrace(data)
  {
    assert forall j :: 0 <= j < n ==> data[..n][j] == data[j];
    var a := EchoTrace(data[..n]);
    var b := EchoTrace(data);
    forall m | 0 <= m < |a|
      ensures a[m] == b[m]
    {
      var j := m / 2;
      assert m == 2 * j || m == 2 * j + 1;
      assert data[..n][j] == data[j];
    }
  }

  /**
    The session grows with its input: the actions after a prefix of the
    reads are a prefix of the actions after all of them. The echo of a line is
    on the wire before the handler reads the next one.
   */
  lemma {:induction false} TracePrefix(events: seq<ReadEvent>, n: nat)
    requires n <= |events|
    ensures EchoSession(events[..n]).trace <= EchoSession(events).trace
  {
    var k := StopIndex(events);
    StopIndexPrefix(events, n);
    if n <= k {
      TakeOfTake(events, k, n);
      assert AllContinue(events[..k]) by {
        assert forall j :: 0 <= j < k ==> events[..k][j] == events[j];
      }
      EchoTracePrefix(events[..k], n);
      if k == |events| {
        assert events[..k] == events;
      }
    } else {
      TakeOfTake(events, n, k);
      assert events[..n][k] == events[k];
    }
  }

  /**
    On a successful read `ReadString` returns the line with its newline, and
    the handler echoes it unchanged: every echoed line ends with `'\n'`.
   */
  lemma {:induction false} EchoKeepsNewline(events: seq<ReadEvent>)
    requires forall i :: 0 <= i < |events| ==> Delivered(events[i])
    ensures var w := Written(EchoSession(events).trace);
      forall j :: 0 <= j < |w| ==>
        w[j].data.Text? && HasSuffix(w[j].data.line, "\n") && |w[j].data.line| >= 2
  {
    var k := StopIndex(events);
    EchoesEveryDataLine(events);
    var w := Written(EchoSession(events).trace);
    forall j | 0 <= j < |w|
      ensures w[j].data.Text? && HasSuffix(w[j].data.line, "\n") && |w[j].data.line| >= 2
    {
      assert events[..k][j] == events[j];
      DataLineShape(events[j]);
    }
  }

  /** A delivered data line ends with its newline and has something before it. */
  lemma {:induction false} DataLineShape(e: ReadEvent)
    requires Delivered(e) && Continues(e)
    ensures HasSuffix(e.text, "\n") && |e.text| >= 2
  {
    var t := e.text;
    assert t[|t| - 1..] == "\n";
  }

  /** The peer sends `hello` and then the terminator: one echo of `"hello\n"`. */
  lemma {:induction false} ExampleHello()
    ensures var s := EchoSession([Line("hello\n"), Line("\n")]);
      && s.ending == Returned
      && Written(s.trace) == [Echo("hello\n")]
  {
    var events := [Line("hello\n"), Line("\n")];
    assert StopIndex(events) == 1;
    EchoesEveryDataLine(events);
    assert Echoes(events[..1]) == [Echo("hello\n")];
  }

  /**
    A line made only of whitespace other than the bare terminator, such as
    `"\r\n"`, is data here and is echoed.
   */
  lemma {:induction false} ExampleCarriageReturn()
    ensures Written(EchoSession([Line("\r\n"), Line("\n")]).trace) == [Echo("\r\n")]
  {
    var events := [Line("\r\n"), Line("\n")];
    assert StopIndex(events) == 1;
    EchoesEveryDataLine(events);
    assert Echoes(events[..1]) == [Echo("\r\n")];
  }
}
