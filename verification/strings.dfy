/**
  The small part of Go's `strings` package that the servers rely on:
  `HasSuffix`, `Index`, `Split`, `Join` and `TrimSpace`, over `seq<char>`.
 */
module Strings {

  type String = seq<char>

  /** `sep` occurs in `s` starting at position `i`. */
  predicate OccursAt(s: String, sep: String, i: nat)
  {
    i + |sep| <= |s| && s[i..i + |sep|] == sep
  }

  /** `sep` occurs somewhere in `s` (Go's `strings.Contains`). */
  predicate Contains(s: String, sep: String)
  {
    exists i: nat | i <= |s| :: OccursAt(s, sep, i)
  }

  /** Go's `strings.HasSuffix`. */
  predicate HasSuffix(s: String, suffix: String)
  {
    |suffix| <= |s| && s[|s| - |suffix|..] == suffix
  }

  /** A string has a suffix exactly when it is some string followed by that suffix. */
  lemma {:induction false} HasSuffixSpec(s: String, suffix: String)
    ensures HasSuffix(s, suffix) <==> exists p :: s == p + suffix
  {
    if HasSuffix(s, suffix) {
      var p := s[..|s| - |suffix|];
      assert s == p + suffix;
    }
    if exists p :: s == p + suffix {
      var p :| s == p + suffix;
      assert s[|s| - |suffix|..] == suffix;
    }
  }

  /** Go's `strings.HasPrefix`. */
  predicate HasPrefix(s: String, prefix: String)
  {
    |prefix| <= |s| && s[..|prefix|] == prefix
  }

  /** The first position at or after `from` where `sep` occurs, or -1. */
  function IndexFrom(s: String, sep: String, from: nat): (r: int)
    requires from <= |s|
    ensures r == -1 || (from <= r && OccursAt(s, sep, r))
    ensures forall k: nat :: from <= k && (r == -1 || k < r) ==> !OccursAt(s, sep, k)
    decreases |s| - from
  {
    if from + |sep| > |s| then -1
    else if s[from..from + |sep|] == sep then from
    else IndexFrom(s, sep, from + 1)
  }

  /** Go's `strings.Index`: the leftmost occurrence of `sep` in `s`, or -1. */
  function Index(s: String, sep: String): (r: int)
    ensures r == -1 <==> !Contains(s, sep)
    ensures r != -1 ==> 0 <= r && OccursAt(s, sep, r)
    ensures forall k: nat :: k < r ==> !OccursAt(s, sep, k)
  {
    IndexFrom(s, sep, 0)
  }

  /** Go's `strings.Join`. */
  function Join(parts: seq<String>, sep: String): String
  {
    if |parts| == 0 then []
    else if |parts| == 1 then parts[0]
    else parts[0] + sep + Join(parts[1..], sep)
  }

  /** An occurrence inside a prefix of `s` is an occurrence in `s`. */
  lemma OccursInPrefix(s: String, sep: String, n: nat, k: nat)
    requires n <= |s|
    requires OccursAt(s[..n], sep, k)
    ensures OccursAt(s, sep, k) && k + |sep| <= n
  {
    assert s[..n][k..k + |sep|] == s[k..k + |sep|];
  }

  /**
    Go's `strings.Split` for a non-empty separator: the pieces of `s` around
    each leftmost, non-overlapping occurrence of `sep`. No piece contains
    `sep`, and there is more than one piece exactly when `s` contains `sep`;
    `SplitJoin` shows that joining the pieces with `sep` gives `s` back.
   */
  function Split(s: String, sep: String): (parts: seq<String>)
    requires |sep| > 0
    ensures |parts| >= 1
    ensures forall i :: 0 <= i < |parts| ==> !Contains(parts[i], sep)
    ensures |parts| >= 2 <==> Contains(s, sep)
    decreases |s|
  {
    var i := Index(s, sep);
    if i == -1 then [s]
    else
      var rest := Split(s[i + |sep|..], sep);
      var parts := [s[..i]] + rest;
      assert !Contains(s[..i], sep) by {
        forall k: nat | OccursAt(s[..i], sep, k)
          ensures false
        {
          OccursInPrefix(s, sep, i, k);
        }
      }
      parts
  }

  /** Joining the pieces of `Split` with the separator gives the original string. */
  lemma {:induction false} SplitJoin(s: String, sep: String)
    requires |sep| > 0
    ensures Join(Split(s, sep), sep) == s
    decreases |s|
  {
    var i := Index(s, sep);
    SplitUnfold(s, sep);
    if i != -1 {
      var tail := s[i + |sep|..];
      var rest := Split(tail, sep);
      SplitJoin(tail, sep);
      JoinCons(s[..i], rest, sep);
      Rejoin(s, sep, i);
    }
  }

  /** One step of `Split`: the piece before the first separator, then the pieces of the rest. */
  lemma {:induction false} SplitUnfold(s: String, sep: String)
    requires |sep| > 0
    ensures Index(s, sep) == -1 ==> Split(s, sep) == [s]
    ensures Index(s, sep) != -1 ==>
      Split(s, sep) == [s[..Index(s, sep)]] + Split(s[Index(s, sep) + |sep|..], sep)
  {
  }

  lemma {:induction false} JoinCons(first: String, rest: seq<String>, sep: String)
    requires |rest| >= 1
    ensures Join([first] + rest, sep) == first + sep + Join(rest, sep)
  {
    assert ([first] + rest)[1..] == rest;
  }

  /**
    A join of three or more pieces starts with the first three and the two
    separators between them, and continues with nothing or another separator.
   */
  lemma {:induction false} JoinFirstThree(parts: seq<String>, sep: String)
    requires |parts| >= 3
    ensures var p := parts[0] + sep + parts[1] + sep + parts[2];
      var j := Join(parts, sep);
      && |p| <= |j| && j[..|p|] == p
      && (|p| == |j| || (|j| >= |p| + |sep| && j[|p|..|p| + |sep|] == sep))
  {
    var p := parts[0] + sep + parts[1] + sep + parts[2];
    var tail := Join(parts[2..], sep);
    assert parts[1..][0] == parts[1] && parts[1..][1..] == parts[2..];
    assert Join(parts, sep) == parts[0] + sep + (parts[1] + sep + tail);
    var x: String;
    if |parts| == 3 {
      x := [];
      assert tail == parts[2];
    } else {
      assert parts[2..][0] == parts[2] && parts[2..][1..] == parts[3..];
      x := sep + Join(parts[3..], sep);
      assert tail == parts[2] + x;
    }
    assert Join(parts, sep) == p + x;
  }

  /** A string is the text before an occurrence of `sep`, `sep`, and the text after it. */
  lemma {:induction false} Rejoin(s: String, sep: String, i: nat)
    requires OccursAt(s, sep, i)
    ensures s == s[..i] + sep + s[i + |sep|..]
  {
  }

  /** The whitespace `strings.TrimSpace` removes, restricted to ASCII. */
  predicate IsSpace(c: char)
  {
    c == ' ' || c == '\t' || c == '\n' || c == '\U{0B}' || c == '\U{0C}' || c == '\r'
  }

  /** `s` with its leading whitespace removed. */
  function TrimLeft(s: String): (r: String)
    ensures |r| <= |s|
  {
    if |s| > 0 && IsSpace(s[0]) then TrimLeft(s[1..]) else s
  }

  /** `s` with its trailing whitespace removed. */
  function TrimRight(s: String): (r: String)
    ensures |r| <= |s|
  {
    if |s| > 0 && IsSpace(s[|s| - 1]) then TrimRight(s[..|s| - 1]) else s
  }

  /** Go's `strings.TrimSpace` over ASCII whitespace; `TrimSpaceSpec` says what it computes. */
  function TrimSpace(s: String): String
  {
    TrimRight(TrimLeft(s))
  }

  /** `TrimLeft` removes a whitespace prefix, and what is left does not start with whitespace. */
  lemma {:induction false} TrimLeftSpec(s: String)
    ensures var r := TrimLeft(s);
      && |r| <= |s| && r == s[|s| - |r|..]
      && (forall i :: 0 <= i < |s| - |r| ==> IsSpace(s[i]))
      && (r == [] || !IsSpace(r[0]))
    decreases |s|
  {
    if |s| > 0 && IsSpace(s[0]) {
      TrimLeftSpec(s[1..]);
      var r := TrimLeft(s);
      forall i | 0 <= i < |s| - |r|
        ensures IsSpace(s[i])
      {
        if i > 0 {
          assert s[1..][i - 1] == s[i];
        }
      }
    }
  }

  /** `TrimRight` removes a whitespace suffix, and what is left does not end with whitespace. */
  lemma {:induction false} TrimRightSpec(s: String)
    ensures var r := TrimRight(s);
      && |r| <= |s| && r == s[..|r|]
      && (forall i :: |r| <= i < |s| ==> IsSpace(s[i]))
      && (r == [] || !IsSpace(r[|r| - 1]))
    decreases |s|
  {
    if |s| > 0 && IsSpace(s[|s| - 1]) {
      var front := s[..|s| - 1];
      TrimRightSpec(front);
      var r := TrimRight(s);
      assert r == TrimRight(front);
      forall i | |r| <= i < |s|
        ensures IsSpace(s[i])
      {
        if i < |s| - 1 {
          assert front[i] == s[i];
        }
      }
      assert s[..|r|] == front[..|r|];
    }
  }

  /**
    `TrimSpace(s)` is the slice `s[lo..lo + |r|]` whose ends are not whitespace
    and outside of which everything is whitespace.
   */
  lemma {:induction false} TrimSpaceSpec(s: String)
    ensures var r := TrimSpace(s);
      && (r == [] || (!IsSpace(r[0]) && !IsSpace(r[|r| - 1])))
      && TrimmedAt(s, r, |s| - |TrimLeft(s)|)
  {
    var left := TrimLeft(s);
    TrimLeftSpec(s);
    TrimRightSpec(left);
    var r := TrimSpace(s);
    var lo := |s| - |left|;
    assert s[lo..lo + |r|] == left[..|r|];
    forall i | lo + |r| <= i < |s|
      ensures IsSpace(s[i])
    {
      assert left[i - lo] == s[i];
    }
    if r != [] {
      assert r[0] == left[0];
    }
  }

  /** `r` is `s[lo..lo + |r|]` and only whitespace surrounds it in `s`. */
  predicate TrimmedAt(s: String, r: String, lo: nat)
  {
    && lo + |r| <= |s|
    && s[lo..lo + |r|] == r
    && (forall i :: 0 <= i < lo ==> IsSpace(s[i]))
    && (forall i :: lo + |r| <= i < |s| ==> IsSpace(s[i]))
  }

  /** A string that is all whitespace trims to the empty string. */
  lemma {:induction false} TrimSpaceAllSpace(s: String)
    requires forall i :: 0 <= i < |s| ==> IsSpace(s[i])
    ensures TrimSpace(s) == []
  {
    TrimSpaceSpec(s);
  }

  /** Trimming is unique: any whitespace-free-at-the-ends slice surrounded by whitespace is the trim. */
  lemma {:induction false} TrimSpaceUnique(s: String, r: String, lo: nat)
    requires TrimmedAt(s, r, lo)
    requires r == [] || (!IsSpace(r[0]) && !IsSpace(r[|r| - 1]))
    ensures TrimSpace(s) == r
  {
    TrimSpaceSpec(s);
    var t := TrimSpace(s);
    var lo' := |s| - |TrimLeft(s)|;
    if r != [] && t != [] {
      assert r[0] == s[lo] && t[0] == s[lo'];
      assert lo == lo';
      assert r[|r| - 1] == s[lo + |r| - 1] && t[|t| - 1] == s[lo' + |t| - 1];
      assert |r| == |t|;
    }
  }

  /** Trimming twice is trimming once. */
  lemma TrimSpaceIdempotent(s: String)
    ensures TrimSpace(TrimSpace(s)) == TrimSpace(s)
  {
    var r := TrimSpace(s);
    TrimSpaceSpec(s);
    assert TrimmedAt(r, r, 0) by { assert r[0..|r|] == r; }
    TrimSpaceUnique(r, r, 0);
  }

  /** A line `t + "\n"` whose body has no whitespace at either end trims to its body. */
  lemma TrimSpaceOfLine(t: String)
    requires t == [] || (!IsSpace(t[0]) && !IsSpace(t[|t| - 1]))
    ensures TrimSpace(t + "\n") == t
  {
    var s := t + "\n";
    assert s[0..|t|] == t;
    TrimSpaceUnique(s, t, 0);
  }

  /** `Contains` for a one-character separator is membership. */
  lemma ContainsChar(s: String, c: char)
    ensures Contains(s, [c]) <==> c in s
  {
    if c in s {
      var i :| 0 <= i < |s| && s[i] == c;
      assert OccursAt(s, [c], i);
    }
    if Contains(s, [c]) {
      var i: nat :| i <= |s| && OccursAt(s, [c], i);
      assert s[i..i + 1][0] == s[i];
    }
  }

  /**
    For a one-character separator, `Split` is the only way to cut `s` into
    pieces free of the separator that join back to `s`.
   */
  lemma {:induction false} SplitOnCharUnique(s: String, c: char, parts: seq<String>)
    requires |parts| >= 1
    requires Join(parts, [c]) == s
    requires forall i :: 0 <= i < |parts| ==> c !in parts[i]
    ensures Split(s, [c]) == parts
    decreases |parts|
  {
    if |parts| == 1 {
      ContainsChar(s, c);
    } else {
      var p := parts[0];
      var rest := Join(parts[1..], [c]);
      assert s == p + [c] + rest;
      assert OccursAt(s, [c], |p|) by { assert s[|p|..|p| + 1] == [c]; }
      forall k: nat | k < |p|
        ensures !OccursAt(s, [c], k)
      {
        assert s[k] == p[k];
      }
      assert Index(s, [c]) == |p|;
      assert s[..|p|] == p && s[|p| + 1..] == rest;
      SplitOnCharUnique(rest, c, parts[1..]);
      assert parts == [p] + parts[1..];
    }
  }

  /** The number of pieces is one more than the number of separator characters. */
  lemma {:induction false} SplitOnCharCount(s: String, c: char)
    ensures |Split(s, [c])| == multiset(s)[c] + 1
    decreases |s|
  {
    var i := Index(s, [c]);
    SplitUnfold(s, [c]);
    if i == -1 {
      ContainsChar(s, c);
      assert multiset(s)[c] == 0;
    } else {
      var tail := s[i + 1..];
      Rejoin(s, [c], i);
      FirstOccurrence(s, c, i);
      assert multiset(s) == multiset(s[..i]) + multiset{c} + multiset(tail) by {
        assert s == s[..i] + [c] + tail;
      }
      SplitOnCharCount(tail, c);
    }
  }

  /** Before the first occurrence of a character, the character does not occur. */
  lemma {:induction false} FirstOccurrence(s: String, c: char, i: nat)
    requires i == Index(s, [c])
    ensures c !in s[..i]
  {
    if c in s[..i] {
      var j :| 0 <= j < i && s[..i][j] == c;
      assert s[j..j + 1] == [c];
      assert OccursAt(s, [c], j);
    }
  }

}
