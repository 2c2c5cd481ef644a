/** The glob matcher of the Redis SCAN command (src/internal/server/redisserver/command.go). */
module Glob {

  /** What a pattern means: '*' stands for any sequence, every other character for itself. */
  ghost predicate Matches(pattern: string, s: string)
    decreases |pattern|
  {
    if pattern == [] then s == []
    else if pattern[0] == '*' then exists k: nat :: k <= |s| && Matches(pattern[1..], s[k..])
    else s != [] && s[0] == pattern[0] && Matches(pattern[1..], s[1..])
  }

  /** strings.Split(pattern, "*"). */
  function Split(pattern: string): (parts: seq<string>)
    ensures |parts| >= 1
  {
    if pattern == [] then [""]
    else
      var rest := Split(pattern[1..]);
      if pattern[0] == '*' then [""] + rest else [[pattern[0]] + rest[0]] + rest[1..]
  }

  /** strings.HasSuffix. */
  predicate HasSuffix(s: string, suffix: string) {
    |suffix| <= |s| && s[|s| - |suffix|..] == suffix
  }

  /** Each part occurs, in order and without overlap, the last one at the very end. */
  ghost predicate InOrder(parts: seq<string>, s: string)
    decreases |parts|
  {
    if parts == [] then s == []
    else exists k: nat :: k <= |s| && parts[0] <= s[k..] && InOrder(parts[1..], s[k..][|parts[0]|..])
  }

  // ---------------------------------------------------------------- a pattern and its parts

  lemma {:induction false} MatchesIsInOrder(pattern: string, s: string)
    ensures var parts := Split(pattern);
      Matches(pattern, s) <==> parts[0] <= s && InOrder(parts[1..], s[|parts[0]|..])
    decreases |pattern|
  {
    if pattern != [] {
      var rest := Split(pattern[1..]);
      if pattern[0] == '*' {
        forall k: nat | k <= |s|
          ensures Matches(pattern[1..], s[k..]) <==>
                  rest[0] <= s[k..] && InOrder(rest[1..], s[k..][|rest[0]|..])
        {
          MatchesIsInOrder(pattern[1..], s[k..]);
        }
        assert Split(pattern)[1..] == rest;
        assert s[0..] == s;
      } else if s != [] {
        MatchesIsInOrder(pattern[1..], s[1..]);
        LiteralHead(pattern, s, rest);
      }
    }
  }

  lemma LiteralHead(pattern: string, s: string, rest: seq<string>)
    requires pattern != [] && pattern[0] != '*' && s != [] && rest == Split(pattern[1..])
    ensures var parts := Split(pattern);
      && parts[1..] == rest[1..]
      && (parts[0] <= s <==> s[0] == pattern[0] && rest[0] <= s[1..])
      && (parts[0] <= s ==> s[|parts[0]|..] == s[1..][|rest[0]|..])
  {
    var head := [pattern[0]] + rest[0];
    assert Split(pattern) == [head] + rest[1..];
    assert head[1..] == rest[0];
    if head <= s {
      assert s[0] == head[0] && head == s[..|head|];
      assert s[1..][..|rest[0]|] == rest[0];
    }
    if s[0] == pattern[0] && rest[0] <= s[1..] {
      assert s == [s[0]] + s[1..];
      assert s[..|head|] == head;
    }
  }

  lemma {:induction false} SplitLiteral(pattern: string)
    requires '*' !in pattern
    ensures Split(pattern) == [pattern]
  {
    if pattern != [] {
      SplitLiteral(pattern[1..]);
      assert [pattern[0]] + pattern[1..] == pattern;
    }
  }

  lemma {:induction false} SplitAtStar(left: string, right: string)
    requires '*' !in left
    ensures Split(left + "*" + right) == [left] + Split(right)
  {
    var pattern := left + "*" + right;
    if left == [] {
      assert pattern[0] == '*' && pattern[1..] == right;
    } else {
      SplitAtStar(left[1..], right);
      assert pattern[0] == left[0] && pattern[1..] == left[1..] + "*" + right;
      assert [left[0]] + left[1..] == left;
    }
  }

  // ---------------------------------------------------------------- leftmost is enough

  lemma Place(parts: seq<string>, s: string) returns (k: nat)
    requires parts != [] && InOrder(parts, s)
    ensures k <= |s| && parts[0] <= s[k..] && InOrder(parts[1..], s[k + |parts[0]|..])
  {
    k :| k <= |s| && parts[0] <= s[k..] && InOrder(parts[1..], s[k..][|parts[0]|..]);
    assert s[k..][|parts[0]|..] == s[k + |parts[0]|..];
  }

  lemma Placed(parts: seq<string>, s: string, k: nat)
    requires parts != [] && k <= |s| && parts[0] <= s[k..] && InOrder(parts[1..], s[k + |parts[0]|..])
    ensures InOrder(parts, s)
  {
    assert s[k..][|parts[0]|..] == s[k + |parts[0]|..];
  }

  /** Only the last part is anchored, so a longer string matches wherever a suffix of it does. */
  lemma MoreRoom(parts: seq<string>, s: string, k: nat)
    requires parts != [] && k <= |s| && InOrder(parts, s[k..])
    ensures InOrder(parts, s)
  {
    hide InOrder;
    var i := Place(parts, s[k..]);
    assert s[k..][i..] == s[k + i..];
    assert s[k..][i + |parts[0]|..] == s[k + i + |parts[0]|..];
    Placed(parts, s, k + i);
  }

  lemma SliceOfSlice(s: string, i: nat, j: nat)
    requires i <= j <= |s|
    ensures s[i..][j - i..] == s[j..]
  {}

  /** Taking the leftmost occurrence of a part loses nothing. */
  lemma LeftmostIsEnough(parts: seq<string>, s: string, at: nat)
    requires |parts| >= 2 && at <= |s| && parts[0] <= s[at..]
    requires forall k: nat | k < at :: !(parts[0] <= s[k..])
    ensures InOrder(parts, s) <==> InOrder(parts[1..], s[at + |parts[0]|..])
  {
    hide InOrder;
    if InOrder(parts, s) {
      var k := Place(parts, s);
      LaterPlaceIsEnough(parts, s, at, k);
    }
    if InOrder(parts[1..], s[at + |parts[0]|..]) {
      Placed(parts, s, at);
    }
  }

  lemma LaterPlaceIsEnough(parts: seq<string>, s: string, at: nat, k: nat)
    requires |parts| >= 2 && at <= k <= |s| && k + |parts[0]| <= |s| && InOrder(parts[1..], s[k + |parts[0]|..])
    ensures InOrder(parts[1..], s[at + |parts[0]|..])
  {
    hide InOrder;
    SliceOfSlice(s, at + |parts[0]|, k + |parts[0]|);
    MoreRoom(parts[1..], s[at + |parts[0]|..], k - at);
  }

  lemma NowhereIsNoMatch(parts: seq<string>, s: string)
    requires parts != [] && forall k: nat | k <= |s| :: !(parts[0] <= s[k..])
    ensures !InOrder(parts, s)
  {
  }

  lemma LastIsSuffix(part: string, s: string)
    ensures InOrder([part], s) <==> HasSuffix(s, part)
  {
    hide InOrder;
    if InOrder([part], s) {
      var k := Place([part], s);
      NothingLeft([part][1..], s[k + |part|..]);
      assert |s| == k + |part| && part == s[k..];
    }
    if HasSuffix(s, part) {
      NothingLeft([part][1..], s[|s| - |part| + |part|..]);
      Placed([part], s, |s| - |part|);
    }
  }

  lemma NothingLeft(parts: seq<string>, s: string)
    requires parts == []
    ensures InOrder(parts, s) <==> s == []
  {}

  // ---------------------------------------------------------------- the matcher

  /** strings.Index: the leftmost occurrence, or a negative number. */
  method Index(s: string, part: string) returns (at: int)
    ensures at < 0 ==> forall k: nat | k <= |s| :: !(part <= s[k..])
    ensures at >= 0 ==> at <= |s| && part <= s[at..] && forall k: nat | k < at :: !(part <= s[k..])
  {
    var i := 0;
    while i <= |s|
      invariant 0 <= i <= |s| + 1
      invariant forall k: nat | k < i :: !(part <= s[k..])
    {
      if part <= s[i..] { return i; }
      i := i + 1;
    }
    return -1;
  }

  /** The general case: the first part is a prefix, each middle part is taken where it first occurs, the last part
      is a suffix of what is left. */
  method MatchParts(parts: seq<string>, text: string) returns (ok: bool)
    requires |parts| >= 2
    ensures ok <==> parts[0] <= text && InOrder(parts[1..], text[|parts[0]|..])
  {
    hide InOrder;
    if parts[0] != "" && !(parts[0] <= text) { return false; }
    var s := text[|parts[0]|..];
    for i := 1 to |parts| - 1
      invariant InOrder(parts[1..], text[|parts[0]|..]) <==> InOrder(parts[i..], s)
    {
      assert parts[i..][1..] == parts[i + 1..];
      if parts[i] == "" {
        LeftmostIsEnough(parts[i..], s, 0);
        assert s[0 + |parts[i]|..] == s;
        continue;
      }
      var at := Index(s, parts[i]);
      if at < 0 {
        NowhereIsNoMatch(parts[i..], s);
        return false;
      }
      LeftmostIsEnough(parts[i..], s, at);
      s := s[at + |parts[i]|..];
    }
    var last := parts[|parts| - 1];
    assert parts[|parts| - 1..] == [last];
    LastIsSuffix(last, s);
    if last != "" { return HasSuffix(s, last); }
    return true;
  }

  /** matchGlob is exact: it answers true precisely for the strings that the pattern means. */
  method MatchGlob(pattern: string, s: string) returns (ok: bool)
    ensures ok <==> Matches(pattern, s)
  {
    hide Matches, InOrder, Split;
    MatchesIsInOrder(pattern, s);
    if pattern == "*" {
      assert pattern == "" + "*" + "";
      SplitAtStar("", "");
      SplitLiteral("");
      OneStar("", "", s);
      return true;
    }
    if pattern == "" {
      SplitLiteral("");
      Exactly("", s);
      return s == "";
    }
    if '*' !in pattern {
      SplitLiteral(pattern);
      Exactly(pattern, s);
      return pattern == s;
    }
    var n := |pattern|;
    if pattern[n - 1] == '*' && '*' !in pattern[..n - 1] {
      assert pattern == pattern[..n - 1] + "*" + "";
      SplitAtStar(pattern[..n - 1], "");
      SplitLiteral("");
      OneStar(pattern[..n - 1], "", s);
      return pattern[..n - 1] <= s;
    }
    if pattern[0] == '*' && '*' !in pattern[1..] {
      assert pattern == "" + "*" + pattern[1..];
      SplitAtStar("", pattern[1..]);
      SplitLiteral(pattern[1..]);
      OneStar("", pattern[1..], s);
      return HasSuffix(s, pattern[1..]);
    }
    SplitHasStar(pattern);
    ok := MatchParts(Split(pattern), s);
  }

  lemma Exactly(part: string, s: string)
    ensures [part][0] == part
    ensures part <= s && InOrder([part][1..], s[|part|..]) <==> part == s
  {
    if part <= s && InOrder([], s[|part|..]) {
      assert s == part + s[|part|..];
    }
  }

  lemma OneStar(left: string, right: string, s: string)
    ensures [left] + [right] == [left, right] && [left, right][1..] == [right]
    ensures left <= s ==> (InOrder([right], s[|left|..]) <==> HasSuffix(s[|left|..], right))
    ensures s[0..] == s && "" <= s
  {
    if left <= s {
      LastIsSuffix(right, s[|left|..]);
    }
  }

  lemma {:induction false} SplitHasStar(pattern: string)
    requires '*' in pattern
    ensures |Split(pattern)| >= 2
  {
    if pattern[0] != '*' {
      SplitHasStar(pattern[1..]);
    }
  }
}
