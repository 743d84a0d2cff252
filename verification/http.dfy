/**
  The HTTP head parser of the head-parsing server: a request line followed by
  `Key: Value` header lines becomes a `Request`. Where the Go code would index
  out of range and panic, the model returns an explicit `Panicked` outcome.
 */
module Http {
  import opened Strings

  /** The suffix the request line must end with. */
  const Http11: String := "HTTP/1.1"

  /** The error message for a request line without that suffix. */
  const UnsupportedVersion: String := "unsupported HTTP version"

  const HeadSeparator: String := " "
  const HeaderSeparator: String := ": "

  datatype Request = Request(
    path: String,
    httpMethod: String,
    version: String,
    headers: map<String, String>)

  /** The out-of-range index expressions that panic in the Go code. */
  datatype Panic =
    | NoHeadLine                          // `lines[0]` of an empty slice
    | ShortRequestLine(tokens: nat)       // `headParts[1]` or `headParts[2]`
    | HeaderWithoutSeparator(line: nat)   // `kv[1]` for `lines[line]`

  datatype ParseResult =
    | Parsed(request: Request)
    | Failed(message: String)
    | Panicked(panic: Panic)

  /** Outcome of folding the header lines into a map. */
  datatype HeaderFold = Folded(headers: map<String, String>) | Unsplittable(line: nat)

  predicate HasSeparator(line: String)
  {
    Contains(line, HeaderSeparator)
  }

  /** The header key: `kv[0]` of `strings.Split(line, ": ")`. */
  function Key(line: String): String
  {
    Split(line, HeaderSeparator)[0]
  }

  /** The header value: `kv[1]` of `strings.Split(line, ": ")`. */
  function Value(line: String): String
    requires HasSeparator(line)
  {
    Split(line, HeaderSeparator)[1]
  }

  /**
    The header loop: each line of `lines`, numbered from `at` in the request,
    stores `Key(line) := Value(line)` into `acc`, in order; the first line with
    no `": "` panics.
   */
  function FoldHeaders(lines: seq<String>, acc: map<String, String>, at: nat): (r: HeaderFold)
    decreases |lines|
  {
    if |lines| == 0 then Folded(acc)
    else
      var kv := Split(lines[0], HeaderSeparator);
      if |kv| < 2 then Unsplittable(at)
      else FoldHeaders(lines[1..], acc[kv[0] := kv[1]], at + 1)
  }

  /** The request line's token count check and header loop, after the version check. */
  function ParseChecked(head: String, headers: seq<String>): ParseResult
  {
    var parts := Split(head, HeadSeparator);
    if |parts| < 3 then Panicked(ShortRequestLine(|parts|))
    else match FoldHeaders(headers, map[], 1)
      case Unsplittable(i) => Panicked(HeaderWithoutSeparator(i))
      case Folded(h) => Parsed(Request(parts[1], parts[0], parts[2], h))
  }

  /**
    `Parse`: the first line is the request line, the rest are header lines.
    The version check is a suffix test made before any splitting, so it is the
    only returned error and it never panics.
   */
  function Parse(lines: seq<String>): (r: ParseResult)
    ensures r == Panicked(NoHeadLine) <==> |lines| == 0
    ensures r.Failed? <==> |lines| > 0 && !HasSuffix(lines[0], Http11)
    ensures r.Failed? ==> r.message == UnsupportedVersion
    ensures r.Parsed? ==> HasSuffix(lines[0], Http11) && |Split(lines[0], HeadSeparator)| >= 3
  {
    if |lines| == 0 then Panicked(NoHeadLine)
    else
      var head := lines[0];
      if !HasSuffix(head, Http11) then Failed(UnsupportedVersion)
      else ParseChecked(head, lines[1..])
  }

  // ---------------------------------------------------------------------------
  // Header lines

  /**
    A header line is its key, `": "`, its value and then either nothing or
    another `": "` with whatever follows; neither key nor value contains
    `": "`. The key ends at the first `": "`.
   */
  lemma HeaderLineParts(line: String)
    requires HasSeparator(line)
    ensures Index(line, HeaderSeparator) == |Key(line)|
    ensures !Contains(Key(line), HeaderSeparator) && !Contains(Value(line), HeaderSeparator)
    ensures HasPrefix(line, Key(line) + HeaderSeparator + Value(line))
    ensures var n := |Key(line)| + 2 + |Value(line)|;
      n == |line| || HasPrefix(line[n..], HeaderSeparator)
  {
    var kv := Split(line, HeaderSeparator);
    SplitJoin(line, HeaderSeparator);
    var rest := Join(kv[1..], HeaderSeparator);
    assert line == kv[0] + HeaderSeparator + rest;
    if |kv| == 2 {
      assert rest == kv[1];
    } else {
      assert rest == kv[1] + HeaderSeparator + Join(kv[2..], HeaderSeparator) by {
        assert kv[1..][1..] == kv[2..];
      }
    }
    var n := |kv[0]| + 2 + |kv[1]|;
    assert line[..n] == kv[0] + HeaderSeparator + kv[1];
  }

  /** A line `key + ": " + value` with no `": "` in key or value parses to exactly that pair. */
  lemma {:induction false} SplitHeaderLine(key: String, value: String)
    requires !Contains(key, HeaderSeparator) && !Contains(value, HeaderSeparator)
    ensures Split(key + HeaderSeparator + value, HeaderSeparator) == [key, value]
  {
    var line := key + HeaderSeparator + value;
    assert OccursAt(line, HeaderSeparator, |key|) by {
      assert line[|key|..|key| + 2] == HeaderSeparator;
    }
    forall k: nat | k < |key|
      ensures !OccursAt(line, HeaderSeparator, k)
    {
      if k + 2 <= |key| {
        assert line[k..k + 2] == key[k..k + 2];
        assert !OccursAt(key, HeaderSeparator, k);
      } else {
        assert line[k + 1] == ':';
      }
    }
    assert Index(line, HeaderSeparator) == |key|;
    assert line[|key| + 2..] == value;
    assert line[..|key|] == key;
  }

  /** The set of keys of the header lines. */
  function KeysOf(lines: seq<String>): set<String>
  {
    set i | 0 <= i < |lines| :: Key(lines[i])
  }

  /** Line `i` is the last of `lines` whose key is `Key(lines[i])`. */
  predicate LastWithKey(lines: seq<String>, i: nat)
    requires i < |lines|
  {
    forall j :: i < j < |lines| ==> Key(lines[j]) != Key(lines[i])
  }

  predicate AllSplittable(lines: seq<String>)
  {
    forall i :: 0 <= i < |lines| ==> HasSeparator(lines[i])
  }

  /** One step of the header loop. */
  lemma FoldHeadersStep(lines: seq<String>, acc: map<String, String>, at: nat)
    requires |lines| > 0
    ensures HasSeparator(lines[0]) ==>
      FoldHeaders(lines, acc, at) == FoldHeaders(lines[1..], acc[Key(lines[0]) := Value(lines[0])], at + 1)
    ensures !HasSeparator(lines[0]) ==> FoldHeaders(lines, acc, at) == Unsplittable(at)
  {
  }

  lemma KeysOfCons(lines: seq<String>)
    requires |lines| > 0
    ensures KeysOf(lines) == {Key(lines[0])} + KeysOf(lines[1..])
  {
    var tail := lines[1..];
    forall k | k in KeysOf(lines)
      ensures k in {Key(lines[0])} + KeysOf(tail)
    {
      var i :| 0 <= i < |lines| && Key(lines[i]) == k;
      if i > 0 { assert lines[i] == tail[i - 1]; }
    }
    forall k | k in KeysOf(tail)
      ensures k in KeysOf(lines)
    {
      var i :| 0 <= i < |tail| && Key(tail[i]) == k;
      assert tail[i] == lines[i + 1];
    }
  }

  /**
    The header loop panics exactly at the first line without `": "`, and
    finishes when every line has one.
   */
  lemma {:induction false} FoldHeadersOutcome(lines: seq<String>, acc: map<String, String>, at: nat)
    ensures var r := FoldHeaders(lines, acc, at);
      r.Folded? <==> AllSplittable(lines)
    ensures var r := FoldHeaders(lines, acc, at);
      r.Unsplittable? ==>
        && at <= r.line < at + |lines|
        && !HasSeparator(lines[r.line - at])
        && AllSplittable(lines[..r.line - at])
    decreases |lines|
  {
    if |lines| > 0 {
      FoldHeadersStep(lines, acc, at);
      if HasSeparator(lines[0]) {
        var tail := lines[1..];
        var acc' := acc[Key(lines[0]) := Value(lines[0])];
        FoldHeadersOutcome(tail, acc', at + 1);
        var r := FoldHeaders(lines, acc, at);
        assert AllSplittable(lines) <==> AllSplittable(tail) by {
          if AllSplittable(tail) {
            forall i | 0 <= i < |lines|
              ensures HasSeparator(lines[i])
            {
              if i > 0 { assert lines[i] == tail[i - 1]; }
            }
          }
        }
        if r.Unsplittable? {
          assert lines[r.line - at] == tail[r.line - (at + 1)];
          assert lines[..r.line - at] == [lines[0]] + tail[..r.line - (at + 1)];
        }
      } else {
        assert lines[..0] == [];
      }
    }
  }

  lemma AllSplittableTail(lines: seq<String>)
    requires |lines| > 0 && AllSplittable(lines)
    ensures HasSeparator(lines[0]) && AllSplittable(lines[1..])
  {
    var tail := lines[1..];
    forall i | 0 <= i < |tail|
      ensures HasSeparator(tail[i])
    {
      assert tail[i] == lines[i + 1];
    }
  }

  /**
    When every header line has `": "`, the result has the keys of `acc` and
    of every line, and keeps `acc`'s value for keys no line mentions.
   */
  lemma {:induction false} FoldHeadersKeys(lines: seq<String>, acc: map<String, String>, at: nat)
    requires AllSplittable(lines)
    ensures FoldHeaders(lines, acc, at).Folded?
    ensures var h := FoldHeaders(lines, acc, at).headers;
      && h.Keys == acc.Keys + KeysOf(lines)
      && (forall k :: k in acc && k !in KeysOf(lines) ==> h[k] == acc[k])
    decreases |lines|
  {
    if |lines| == 0 {
      assert KeysOf(lines) == {};
    } else {
      AllSplittableTail(lines);
      FoldHeadersStep(lines, acc, at);
      FoldHeadersKeys(lines[1..], acc[Key(lines[0]) := Value(lines[0])], at + 1);
      KeysOfCons(lines);
    }
  }

  /** When every header line has `": "`, each line's key holds the value of its last line. */
  lemma {:induction false} FoldHeadersLastWins(lines: seq<String>, acc: map<String, String>, at: nat)
    requires AllSplittable(lines)
    ensures FoldHeaders(lines, acc, at).Folded?
    ensures var h := FoldHeaders(lines, acc, at).headers;
      forall i :: 0 <= i < |lines| && LastWithKey(lines, i) ==>
        Key(lines[i]) in h && h[Key(lines[i])] == Value(lines[i])
    decreases |lines|
  {
    FoldHeadersKeys(lines, acc, at);
    if |lines| > 0 {
      AllSplittableTail(lines);
      FoldHeadersStep(lines, acc, at);
      var tail := lines[1..];
      var k0 := Key(lines[0]);
      var acc' := acc[k0 := Value(lines[0])];
      FoldHeadersLastWins(tail, acc', at + 1);
      FoldHeadersKeys(tail, acc', at + 1);
      var h := FoldHeaders(lines, acc, at).headers;
      assert h == FoldHeaders(tail, acc', at + 1).headers;
      forall i | 0 <= i < |lines| && LastWithKey(lines, i)
        ensures Key(lines[i]) in h && h[Key(lines[i])] == Value(lines[i])
      {
        if i > 0 {
          assert lines[i] == tail[i - 1];
          assert LastWithKey(tail, i - 1) by {
            forall j | i - 1 < j < |tail|
              ensures Key(tail[j]) != Key(tail[i - 1])
            {
              assert tail[j] == lines[j + 1];
            }
          }
        }
      }
    }
  }

  // ---------------------------------------------------------------------------
  // Properties of Parse

  /** The request line is `lines[0]`; the header lines are `lines[1..]`, numbered from 1. */
  lemma ParseStructure(lines: seq<String>)
    requires |lines| > 0 && HasSuffix(lines[0], Http11)
    ensures Parse(lines) == ParseChecked(lines[0], lines[1..])
  {
  }

  /**
    Any request line without the `HTTP/1.1` suffix is rejected with the
    version error, however many tokens it has and whatever the header lines.
   */
  lemma UnsupportedVersionNeverPanics(head: String, headers: seq<String>)
    requires !HasSuffix(head, Http11)
    ensures Parse([head] + headers) == Failed(UnsupportedVersion)
  {
  }

  /**
    On success, httpMethod, path and version are the first three space-separated
    tokens of the request line: it starts with `httpMethod + " " + path + " " +
    version`, followed by nothing or by a space and the ignored extra tokens.
    None of the three contains a space.
   */
  lemma {:induction false} ParsedRequestLine(lines: seq<String>)
    requires Parse(lines).Parsed?
    ensures var q := Parse(lines).request;
      && ' ' !in q.httpMethod && ' ' !in q.path && ' ' !in q.version
      && HasPrefix(lines[0], q.httpMethod + " " + q.path + " " + q.version)
      && var n := |q.httpMethod| + |q.path| + |q.version| + 2;
         n == |lines[0]| || lines[0][n] == ' '
  {
    var head := lines[0];
    var parts := Split(head, HeadSeparator);
    var q := Parse(lines).request;
    assert q.httpMethod == parts[0] && q.path == parts[1] && q.version == parts[2];
    ContainsChar(parts[0], ' ');
    ContainsChar(parts[1], ' ');
    ContainsChar(parts[2], ' ');
    SplitJoin(head, HeadSeparator);
    JoinFirstThree(parts, HeadSeparator);
    var n := |parts[0]| + |parts[1]| + |parts[2]| + 2;
    if n < |head| {
      assert head[n..n + 1][0] == head[n];
    }
  }

  /**
    A request line that ends in `HTTP/1.1` but has fewer than two spaces
    (such as `"HTTP/1.1"` or `"GET HTTP/1.1"`) makes the Go code index out of
    range.
   */
  lemma ShortRequestLinePanics(lines: seq<String>)
    requires |lines| > 0 && HasSuffix(lines[0], Http11)
    requires multiset(lines[0])[' '] < 2
    ensures Parse(lines) == Panicked(ShortRequestLine(multiset(lines[0])[' '] + 1))
  {
    SplitOnCharCount(lines[0], ' ');
  }

  /** Conversely, a request line that passes the check and has two spaces never panics on its tokens. */
  lemma RequestLineTokens(lines: seq<String>)
    requires |lines| > 0 && HasSuffix(lines[0], Http11)
    ensures Parse(lines).Panicked? && Parse(lines).panic.ShortRequestLine?
        <==> multiset(lines[0])[' '] < 2
  {
    SplitOnCharCount(lines[0], ' ');
  }

  /**
    With a good request line, the header lines decide the outcome: the first
    header line without `": "` (the empty line included) panics; otherwise the
    headers map has exactly the lines' keys and each key holds the value of its
    last line.
   */
  lemma {:induction false} ParsedHeaders(lines: seq<String>)
    requires |lines| > 0 && HasSuffix(lines[0], Http11)
    requires multiset(lines[0])[' '] >= 2
    ensures Parse(lines).Parsed? <==> AllSplittable(lines[1..])
    ensures Parse(lines).Panicked? ==>
      && Parse(lines).panic.HeaderWithoutSeparator?
      && var i := Parse(lines).panic.line;
         1 <= i < |lines| && !HasSeparator(lines[i])
         && (forall j :: 1 <= j < i ==> HasSeparator(lines[j]))
    ensures Parse(lines).Parsed? ==>
      var h := Parse(lines).request.headers;
      var hs := lines[1..];
      && h.Keys == KeysOf(hs)
      && (forall i :: 0 <= i < |hs| && LastWithKey(hs, i) ==> h[Key(hs[i])] == Value(hs[i]))
  {
    var hs := lines[1..];
    ParseDelegatesHeaders(lines);
    FoldHeadersOutcome(hs, map[], 1);
    if AllSplittable(hs) {
      FoldHeadersKeys(hs, map[], 1);
      FoldHeadersLastWins(hs, map[], 1);
    }
    var r := Parse(lines);
    if r.Panicked? {
      var i := r.panic.line;
      assert lines[i] == hs[i - 1];
      forall j | 1 <= j < i
        ensures HasSeparator(lines[j])
      {
        assert lines[j] == hs[..i - 1][j - 1];
      }
    }
  }

  /** With a good request line, the outcome is the header loop's. */
  lemma {:induction false} ParseDelegatesHeaders(lines: seq<String>)
    requires |lines| > 0 && HasSuffix(lines[0], Http11)
    requires multiset(lines[0])[' '] >= 2
    ensures var f := FoldHeaders(lines[1..], map[], 1);
      && (f.Folded? ==> Parse(lines).Parsed? && Parse(lines).request.headers == f.headers)
      && (f.Unsplittable? ==> Parse(lines) == Panicked(HeaderWithoutSeparator(f.line)))
  {
    SplitOnCharCount(lines[0], ' ');
  }

  /** An empty header line, such as a stray blank line in the head, has no `": "` and panics. */
  lemma {:induction false} EmptyHeaderLinePanics(head: String)
    requires HasSuffix(head, Http11) && multiset(head)[' '] >= 2
    ensures Parse([head, ""]) == Panicked(HeaderWithoutSeparator(1))
  {
    ParseDelegatesHeaders([head, ""]);
    assert [head, ""][1..] == [""];
    assert !Contains("", HeaderSeparator);
  }

  /** The duplicate-key rule in two lines: the later line wins. */
  lemma LastDuplicateWins(head: String, key: String, first: String, second: String)
    requires HasSuffix(head, Http11) && multiset(head)[' '] >= 2
    requires !Contains(key, HeaderSeparator)
    requires !Contains(first, HeaderSeparator) && !Contains(second, HeaderSeparator)
    ensures var lines := [head, key + HeaderSeparator + first, key + HeaderSeparator + second];
      Parse(lines).Parsed? && Parse(lines).request.headers == map[key := second]
  {
    var l1 := key + HeaderSeparator + first;
    var l2 := key + HeaderSeparator + second;
    SplitHeaderLine(key, first);
    SplitHeaderLine(key, second);
    SplitOnCharCount(head, ' ');
    var lines := [head, l1, l2];
    assert lines[1..] == [l1, l2];
    assert [l1, l2][1..] == [l2];
    var once := map[key := first];
    assert FoldHeaders([l1, l2], map[], 1) == FoldHeaders([l2], once, 2);
    assert FoldHeaders([l2], once, 2) == Folded(once[key := second]);
    assert once[key := second] == map[key := second];
  }

  /**
    The version is the third token, not the suffix that was checked: in
    `"GET /a b HTTP/1.1"` it is `"b"`, and the fourth token is ignored.
   */
  lemma {:induction false} VersionIsThirdToken()
    ensures Parse(["GET /a b HTTP/1.1"]) == Parsed(Request("/a", "GET", "b", map[]))
  {
    var head := "GET /a b HTTP/1.1";
    assert HasSuffix(head, Http11) by {
      assert head[|head| - 8..] == "HTTP/1.1";
    }
    ParseStructure([head]);
    assert [head][1..] == [];
    SplitFourTokens();
  }

  lemma {:induction false} SplitFourTokens()
    ensures Split("GET /a b HTTP/1.1", HeadSeparator) == ["GET", "/a", "b", "HTTP/1.1"]
  {
    var tokens := ["GET", "/a", "b", "HTTP/1.1"];
    assert Join(tokens, " ") == "GET /a b HTTP/1.1" by {
      assert tokens[1..] == ["/a", "b", "HTTP/1.1"];
      assert tokens[1..][1..] == ["b", "HTTP/1.1"];
      assert tokens[1..][1..][1..] == ["HTTP/1.1"];
    }
    assert forall i :: 0 <= i < |tokens| ==> ' ' !in tokens[i];
    SplitOnCharUnique("GET /a b HTTP/1.1", ' ', tokens);
  }

  /** A header value stops at a second `": "`: `"A: b: c"` stores `"b"` under `"A"`. */
  lemma ValueStopsAtSecondSeparator()
    ensures Key("A: b: c") == "A" && Value("A: b: c") == "b"
  {
    var line := "A: b: c";
    assert OccursAt(line, HeaderSeparator, 1);
    assert line[0..2][0] == 'A';
    var rest := line[3..];
    assert rest == "b: c";
    assert OccursAt(rest, HeaderSeparator, 1);
    assert rest[0..2][0] == 'b';
    assert Split(line, HeaderSeparator)[1] == Split(rest, HeaderSeparator)[0];
  }

  /**
    The parse of a well-formed head: a request line `httpMethod + " " + path +
    " " + version` ending in `HTTP/1.1`, and header lines `keys[i] + ": " +
    values[i]`, none of whose parts contains its separator.
   */
  lemma {:induction false} ParseWellFormed(
    httpMethod: String, path: String, version: String,
    keys: seq<String>, values: seq<String>, lines: seq<String>)
    requires ' ' !in httpMethod && ' ' !in path && ' ' !in version
    requires HasSuffix(version, Http11)
    requires |keys| == |values| && |lines| == |keys| + 1
    requires lines[0] == httpMethod + " " + path + " " + version
    requires forall i :: 0 <= i < |keys| ==>
      && !Contains(keys[i], HeaderSeparator) && !Contains(values[i], HeaderSeparator)
      && lines[i + 1] == keys[i] + HeaderSeparator + values[i]
    ensures Parse(lines).Parsed?
    ensures var q := Parse(lines).request;
      && q.httpMethod == httpMethod && q.path == path && q.version == version
      && q.headers.Keys == (set i | 0 <= i < |keys| :: keys[i])
      && (forall i :: 0 <= i < |keys| && (forall j :: i < j < |keys| ==> keys[j] != keys[i]) ==>
            q.headers[keys[i]] == values[i])
  {
    var head := lines[0];
    assert HasSuffix(head, Http11);
    SplitRequestLine(httpMethod, path, version);
    SplitOnCharCount(head, ' ');
    var hs := lines[1..];
    SplitHeaderLines(keys, values, hs);
    ParsedHeaders(lines);
    var q := Parse(lines).request;
    KeysOfHeaderLines(keys, hs);
    forall i | 0 <= i < |keys| && (forall j :: i < j < |keys| ==> keys[j] != keys[i])
      ensures q.headers[keys[i]] == values[i]
    {
      assert LastWithKey(hs, i);
    }
  }

  /** The keys of header lines whose keys are `keys` are the members of `keys`. */
  lemma {:induction false} KeysOfHeaderLines(keys: seq<String>, hs: seq<String>)
    requires |keys| == |hs|
    requires forall i :: 0 <= i < |hs| ==> Key(hs[i]) == keys[i]
    ensures KeysOf(hs) == set i | 0 <= i < |keys| :: keys[i]
  {
    var ks := set i | 0 <= i < |keys| :: keys[i];
    forall k | k in KeysOf(hs)
      ensures k in ks
    {
      var i :| 0 <= i < |hs| && Key(hs[i]) == k;
      assert keys[i] == k;
    }
    forall k | k in ks
      ensures k in KeysOf(hs)
    {
      var i :| 0 <= i < |keys| && keys[i] == k;
      assert Key(hs[i]) == k;
    }
  }

  /** A request line of three space-free tokens splits into exactly those tokens. */
  lemma {:induction false} SplitRequestLine(httpMethod: String, path: String, version: String)
    requires ' ' !in httpMethod && ' ' !in path && ' ' !in version
    ensures Split(httpMethod + " " + path + " " + version, HeadSeparator) == [httpMethod, path, version]
  {
    var tokens := [httpMethod, path, version];
    assert Join(tokens, " ") == httpMethod + " " + path + " " + version by {
      assert tokens[1..] == [path, version];
      assert [path, version][1..] == [version];
      assert Join([path, version], " ") == path + " " + version;
    }
    SplitOnCharUnique(httpMethod + " " + path + " " + version, ' ', tokens);
  }

  /** Header lines `keys[i] + ": " + values[i]` have exactly those keys and values. */
  lemma {:induction false} SplitHeaderLines(keys: seq<String>, values: seq<String>, hs: seq<String>)
    requires |keys| == |values| == |hs|
    requires forall i :: 0 <= i < |keys| ==>
      && !Contains(keys[i], HeaderSeparator) && !Contains(values[i], HeaderSeparator)
      && hs[i] == keys[i] + HeaderSeparator + values[i]
    ensures forall i :: 0 <= i < |hs| ==>
      HasSeparator(hs[i]) && Key(hs[i]) == keys[i] && Value(hs[i]) == values[i]
  {
    forall i | 0 <= i < |hs|
      ensures HasSeparator(hs[i]) && Key(hs[i]) == keys[i] && Value(hs[i]) == values[i]
    {
      SplitHeaderLine(keys[i], values[i]);
    }
  }
}
