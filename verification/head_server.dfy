/**
  The connection handler of the head-parsing server: read lines until the
  terminator line, an error or end of stream; trim and accumulate them; parse
  the accumulated lines as an HTTP head; write the response envelopes.
 */
module HeadServer {
  import opened Strings
  import opened Http
  import opened Conn

  const Greeting: String := "Hello, world."
  const ParseFailure: String := "failed to parse http query."

  /** The envelope written last on every path that reaches the end of the handler. */
  function Hello(data: Payload): Envelope
  {
    Envelope(Greeting, 1, data)
  }

  /** The envelope written when the head does not parse. */
  const BadRequest: Envelope := Envelope(ParseFailure, 400, Null)

  /**
    The lines the loop accumulates from data lines: each one trimmed, in read
    order. (It is only applied to data lines; an error would contribute `""`.)
   */
  function Accumulate(events: seq<ReadEvent>): seq<String>
  {
    if |events| == 0 then []
    else Accumulate(events[..|events| - 1]) + [Trimmed(events[|events| - 1])]
  }

  function Trimmed(e: ReadEvent): String
  {
    if e.Line? then TrimSpace(e.text) else []
  }

  /** A data line adds its trimmed text after the lines accumulated before it. */
  lemma {:induction false} AccumulateNext(events: seq<ReadEvent>, i: nat)
    requires i < |events| && events[i].Line?
    ensures Accumulate(events[..i + 1]) == Accumulate(events[..i]) + [TrimSpace(events[i].text)]
  {
    assert events[..i + 1][..i] == events[..i];
  }

  /** The accumulated lines are the trimmed read lines, one for one and in read order. */
  lemma {:induction false} AccumulateLines(events: seq<ReadEvent>)
    ensures |Accumulate(events)| == |events|
    ensures forall i :: 0 <= i < |events| ==> Accumulate(events)[i] == Trimmed(events[i])
    decreases |events|
  {
    if |events| > 0 {
      var front := events[..|events| - 1];
      AccumulateLines(front);
      assert Accumulate(events) == Accumulate(front) + [Trimmed(events[|events| - 1])];
      assert forall i :: 0 <= i < |front| ==> front[i] == events[i];
    }
  }

  /**
    What happens after the read loop: the actions `prior` have been performed
    and the accumulated lines parsed to `result`. A failed parse writes the 400 envelope and then, for want of
    a `return`, also the greeting with `nil` data.
   */
  function Respond(prior: seq<Action>, result: ParseResult): Session
  {
    match result
    case Panicked(p) => Session(prior, Crashed(p))
    case Failed(_) => Session(prior + [Write(BadRequest), Write(Hello(Null))], Returned)
    case Parsed(request) => Session(prior + [Write(Hello(RequestData(request)))], Returned)
  }

  /**
    The session of one connection, stated through the first stopping event:
    none yet means the handler is blocked on its next read; end of stream
    means it returns without writing; the terminator or any other error leads
    to parsing the lines accumulated before it.
   */
  function HeadSession(events: seq<ReadEvent>): Session
  {
    var k := StopIndex(events);
    if k == |events| then Session(ReadsOf(events), Blocked)
    else Stopped(events[..k], events[k])
  }

  /** The session once the data lines `data` and then the stopping event `stop` have been read. */
  function Stopped(data: seq<ReadEvent>, stop: ReadEvent): Session
  {
    var prior := ReadsOf(data) + [Read(stop)];
    if IsEof(stop) then Session(prior, Returned)
    else Respond(prior, Parse(Accumulate(data)))
  }

  /**
    `handleRequest`: the read loop as the Go code writes it, over the reads
    `events`. It agrees with `HeadSession`.
   */
  method HandleRequest(events: seq<ReadEvent>) returns (s: Session)
    ensures s == HeadSession(events)
  {
    var lines: seq<String> := [];
    var trace: seq<Action> := [];
    var i := 0;
    while true
      invariant i <= StopIndex(events)
      invariant trace == ReadsOf(events[..i])
      invariant lines == Accumulate(events[..i])
      decreases |events| - i
    {
      if i == |events| {
        return Session(trace, Blocked);
      }
      var e := events[i];
      ReadsOfNext(events, i);
      trace := trace + [Read(e)];
      if e.ReadError? {
        if e.message == EofMessage {
          return Session(trace, Returned);
        }
        break;
      }
      if e.text == Terminator {
        break;
      }
      AccumulateNext(events, i);
      lines := lines + [TrimSpace(e.text)];
      i := i + 1;
    }

    assert i == StopIndex(events);
    var result := Parse(lines);
    if result.Panicked? {
      return Session(trace, Crashed(result.panic));
    }
    if !result.Parsed? {
      trace := trace + [Write(BadRequest)];
    }
    var data := if result.Parsed? then RequestData(result.request) else Null;
    trace := trace + [Write(Hello(data))];
    s := Session(trace, Returned);
  }

  // ---------------------------------------------------------------------------
  // Properties

  /** Reading the data lines and the stopping event writes nothing. */
  lemma {:induction false} StoppedReadsWriteNothing(data: seq<ReadEvent>, stop: ReadEvent)
    ensures Written(ReadsOf(data) + [Read(stop)]) == []
  {
    WrittenAppend(ReadsOf(data), [Read(stop)]);
    WrittenReads(data);
    assert [Read(stop)][..0] == [];
  }

  /** End of stream after any number of data lines: the handler returns and writes nothing. */
  lemma {:induction false} EofWritesNothing(events: seq<ReadEvent>, j: nat)
    requires j < |events| && IsEof(events[j])
    requires forall i :: 0 <= i < j ==> Continues(events[i])
    ensures HeadSession(events).ending == Returned
    ensures Written(HeadSession(events).trace) == []
  {
    assert StopIndex(events) == j;
    StoppedReadsWriteNothing(events[..j], events[j]);
  }

  /**
    The terminator or any error other than end of stream stops the loop, and
    the handler still parses the trimmed lines read before it: one greeting
    on success, the 400 envelope then the greeting with no data on a parse
    error, nothing if the parse panics.
   */
  lemma {:induction false} StopThenRespond(events: seq<ReadEvent>, j: nat)
    requires j == StopIndex(events) && j < |events| && !IsEof(events[j])
    ensures var r := Parse(Accumulate(events[..j]));
      var s := HeadSession(events);
      var w := Written(s.trace);
      && ReadsOf(events[..j]) + [Read(events[j])] <= s.trace
      && (r.Parsed? ==> s.ending == Returned && w == [Hello(RequestData(r.request))])
      && (r.Failed? ==> s.ending == Returned && w == [BadRequest, Hello(Null)])
      && (r.Panicked? ==> s.ending == Crashed(r.panic) && w == [])
  {
    var prior := ReadsOf(events[..j]) + [Read(events[j])];
    StoppedReadsWriteNothing(events[..j], events[j]);
    var r := Parse(Accumulate(events[..j]));
    if r.Parsed? {
      WrittenAppend(prior, [Write(Hello(RequestData(r.request)))]);
      WrittenSingle(Hello(RequestData(r.request)));
    } else if r.Failed? {
      WrittenAppend(prior, [Write(BadRequest), Write(Hello(Null))]);
      WrittenPair(BadRequest, Hello(Null));
    }
  }

  lemma {:induction false} WrittenSingle(e: Envelope)
    ensures Written([Write(e)]) == [e]
  {
    assert [Write(e)][..0] == [];
  }

  lemma {:induction false} WrittenPair(e: Envelope, f: Envelope)
    ensures Written([Write(e), Write(f)]) == [e, f]
  {
    assert [Write(e), Write(f)][..1] == [Write(e)];
    WrittenSingle(e);
  }

  /**
    Only a line that is exactly `"\n"` ends a request: a line such as
    `"\r\n"` or `" \n"` is data, and it accumulates as the empty string.
   */
  lemma {:induction false} BlankLinesAreData(text: String)
    requires text != Terminator
    requires forall i :: 0 <= i < |text| ==> IsSpace(text[i])
    ensures Continues(Line(text)) && TrimSpace(text) == []
  {
    TrimSpaceAllSpace(text);
  }

  /** A terminator as the very first read makes the handler call `Parse` with no lines, which panics. */
  lemma {:induction false} ImmediateTerminatorCrashes(events: seq<ReadEvent>)
    requires |events| > 0 && events[0] == Line(Terminator)
    ensures HeadSession(events) == Session([Read(Line(Terminator))], Crashed(NoHeadLine))
  {
    assert StopIndex(events) == 0;
    assert Accumulate(events[..0]) == [];
  }

  /** Once the loop has stopped, nothing the peer sends afterwards changes the session. */
  lemma {:induction false} IgnoresAfterStop(events: seq<ReadEvent>, more: seq<ReadEvent>)
    requires StopIndex(events) < |events|
    ensures HeadSession(events + more) == HeadSession(events)
  {
    var k := StopIndex(events);
    StopIndexAppend(events, more);
    TakeOfAppend(events, more, k);
    assert (events + more)[k] == events[k];
  }

  /**
    The session grows with its input: the actions after a prefix of the reads
    are a prefix of the actions after all of them, and a blocked handler has
    written nothing.
   */
  lemma {:induction false} TracePrefix(events: seq<ReadEvent>, n: nat)
    requires n <= |events|
    ensures var s := HeadSession(events[..n]);
      && s.trace <= HeadSession(events).trace
      && (s.ending == Blocked ==> Written(s.trace) == [])
  {
    var k := StopIndex(events);
    StopIndexPrefix(events, n);
    if n <= k {
      WrittenReads(events[..n]);
      if k < |events| {
        TakeOfTake(events, k, n);
        ReadsOfPrefix(events[..k], n);
        StoppedTrace(events[..k], events[k]);
      } else {
        ReadsOfPrefix(events, n);
      }
    } else {
      TakeOfTake(events, n, k);
      assert events[..n][k] == events[k];
    }
  }

  /** The session after a stop begins with the reads that led to it. */
  lemma {:induction false} StoppedTrace(data: seq<ReadEvent>, stop: ReadEvent)
    ensures ReadsOf(data) + [Read(stop)] <= Stopped(data, stop).trace
  {
  }

  /** A request with a header, as the server sees it: one greeting carrying the parsed head. */
  lemma {:induction false} ExampleGetWithHeader()
    ensures var events := [Line("GET /foo HTTP/1.1\n"), Line("Accept: text/plain\n"), Line("\n")];
      Written(HeadSession(events).trace)
        == [Hello(RequestData(Request("/foo", "GET", "HTTP/1.1", map["Accept" := "text/plain"])))]
  {
    var events := [Line("GET /foo HTTP/1.1\n"), Line("Accept: text/plain\n"), Line("\n")];
    var head := "GET /foo HTTP/1.1";
    var header := "Accept: text/plain";
    assert StopIndex(events) == 2;
    assert Accumulate(events[..2]) == [head, header] by {
      assert events[0].text == head + "\n";
      assert events[1].text == header + "\n";
      TrimSpaceOfLine(head);
      TrimSpaceOfLine(header);
      AccumulateLines(events[..2]);
    }
    ParseGetWithHeader();
    StopThenRespond(events, 2);
  }

  lemma {:induction false} ParseGetWithHeader()
    ensures Parse(["GET /foo HTTP/1.1", "Accept: text/plain"])
      == Parsed(Request("/foo", "GET", "HTTP/1.1", map["Accept" := "text/plain"]))
  {
    var head := "GET /foo HTTP/1.1";
    var header := "Accept: text/plain";
    var lines := [head, header];
    assert !Contains("Accept", HeaderSeparator) by {
      forall k: nat | k <= 6 ensures !OccursAt("Accept", HeaderSeparator, k) {
        assert k + 2 <= 6 ==> "Accept"[k] != ':';
      }
    }
    assert !Contains("text/plain", HeaderSeparator) by {
      forall k: nat | k <= 10 ensures !OccursAt("text/plain", HeaderSeparator, k) {
        assert k + 2 <= 10 ==> "text/plain"[k] != ':';
      }
    }
    assert header == "Accept" + HeaderSeparator + "text/plain";
    assert head == "GET" + " " + "/foo" + " " + "HTTP/1.1";
    ParseWellFormed("GET", "/foo", "HTTP/1.1", ["Accept"], ["text/plain"], lines);
    SingleKeySet("Accept");
    var q := Parse(lines).request;
    assert q.headers["Accept"] == "text/plain";
  }

  lemma {:induction false} SingleKeySet(key: String)
    ensures (set i | 0 <= i < 1 :: [key][i]) == {key}
  {
    assert [key][0] == key;
  }

  /**
    A request line with another version: the 400 envelope, then the greeting
    with no data, because the handler does not return after the first write.
   */
  lemma {:induction false} ExampleUnsupportedVersion()
    ensures var events := [Line("GET /foo HTTP/2\n"), Line("\n")];
      Written(HeadSession(events).trace) == [BadRequest, Hello(Null)]
  {
    var events := [Line("GET /foo HTTP/2\n"), Line("\n")];
    var head := "GET /foo HTTP/2";
    assert events[0].text == head + "\n";
    TrimSpaceOfLine(head);
    StopThenRespond(events, 1);
    assert Accumulate(events[..1]) == [head];
    assert head[|head| - 8..] != Http11;
  }
}
