// String trimming and splitting.
module Texts {
  import opened Wrappers

  // The Unicode property White_Space.
  predicate IsWhite(c: char) {
    || c == ' ' || '\t' <= c <= '\r' || c == '\U{0085}' || c == '\U{00A0}' || c == '\U{1680}'
    || '\U{2000}' <= c <= '\U{200A}' || c == '\U{2028}' || c == '\U{2029}' || c == '\U{202F}'
    || c == '\U{205F}' || c == '\U{3000}'
  }

  function TrimStart(s: string): string {
    if s != [] && IsWhite(s[0]) then TrimStart(s[1..]) else s
  }

  function TrimEnd(s: string): string {
    if s != [] && IsWhite(s[|s| - 1]) then TrimEnd(s[..|s| - 1]) else s
  }

  // `str::trim`.
  function Trim(s: string): string {
    TrimStart(TrimEnd(s))
  }

  // `trim_end_matches(c)`.
  function TrimEndMatches(s: string, c: char): string {
    if s != [] && s[|s| - 1] == c then TrimEndMatches(s[..|s| - 1], c) else s
  }

  // `split_once(c)`: what stands before and after the first c.
  function SplitOnce(s: string, c: char): (r: Option<(string, string)>)
    ensures r.Some? <==> c in s
  {
    if s == [] then None
    else if s[0] == c then Some(([], s[1..]))
    else
      match SplitOnce(s[1..], c)
      case Some(p) => Some(([s[0]] + p.0, p.1))
      case None => None
  }

  // `split(c)`.
  function Split(s: string, c: char): (parts: seq<string>)
    ensures |parts| > 0
    decreases |s|
  {
    match SplitOnce(s, c)
    case Some(p) => SplitOnceShrinks(s, c); [p.0] + Split(p.1, c)
    case None => [s]
  }

  lemma {:induction false} SplitOnceShrinks(s: string, c: char)
    requires SplitOnce(s, c).Some?
    ensures |SplitOnce(s, c).value.1| < |s|
  {
    if s[0] == c {
    } else {
      SplitOnceShrinks(s[1..], c);
    }
  }

  lemma {:induction false} SplitOnceAt(a: string, c: char, b: string)
    requires c !in a
    ensures SplitOnce(a + [c] + b, c) == Some((a, b))
  {
    var s := a + [c] + b;
    if a == [] {
      assert s[1..] == b;
    } else {
      assert a[0] in a && forall x :: x in a[1..] ==> x in a;
      assert s[1..] == a[1..] + [c] + b;
      SplitOnceAt(a[1..], c, b);
      assert [a[0]] + a[1..] == a;
    }
  }

  lemma SplitInThree(a: string, b: string, d: string, c: char)
    requires c !in a && c !in b && c !in d
    ensures Split(a + [c] + b + [c] + d, c) == [a, b, d]
  {
    assert a + [c] + b + [c] + d == a + [c] + (b + [c] + d);
    SplitOnceAt(a, c, b + [c] + d);
    SplitOnceAt(b, c, d);
    assert Split(d, c) == [d];
    assert Split(b + [c] + d, c) == [b] + [d];
  }

  lemma NothingToTrim(s: string)
    requires s != [] && !IsWhite(s[0]) && !IsWhite(s[|s| - 1])
    ensures Trim(s) == s
  {
  }

  // -------------------------------------------- what trimming and splitting leave

  predicate AllWhite(s: string) {
    forall i :: 0 <= i < |s| ==> IsWhite(s[i])
  }

  lemma {:induction false} TrimStartWhite(before: string, s: string)
    requires AllWhite(before) && (s == "" || !IsWhite(s[0]))
    ensures TrimStart(before + s) == s
  {
    if before == "" {
      assert before + s == s;
    } else {
      assert (before + s)[1..] == before[1..] + s;
      TrimStartWhite(before[1..], s);
    }
  }

  lemma {:induction false} TrimEndWhite(s: string, after: string)
    requires AllWhite(after) && (s == "" || !IsWhite(s[|s| - 1]))
    ensures TrimEnd(s + after) == s
  {
    if after == "" {
      assert s + after == s;
    } else {
      assert (s + after)[..|s + after| - 1] == s + after[..|after| - 1];
      TrimEndWhite(s, after[..|after| - 1]);
    }
  }

  lemma {:induction false} TrimStartSplits(s: string) returns (before: string)
    ensures AllWhite(before) && s == before + TrimStart(s)
  {
    if s != [] && IsWhite(s[0]) {
      before := TrimStartSplits(s[1..]);
      before := [s[0]] + before;
    } else {
      before := "";
    }
  }

  lemma {:induction false} TrimEndSplits(s: string) returns (after: string)
    ensures AllWhite(after) && s == TrimEnd(s) + after
  {
    if s != [] && IsWhite(s[|s| - 1]) {
      after := TrimEndSplits(s[..|s| - 1]);
      after := after + [s[|s| - 1]];
    } else {
      after := "";
    }
  }

  // What stands between the blanks.
  lemma TrimIs(before: string, s: string, after: string)
    requires AllWhite(before) && AllWhite(after) && s != "" && !IsWhite(s[0]) && !IsWhite(s[|s| - 1])
    ensures Trim(before + s + after) == s
  {
    hide TrimStart, TrimEnd;
    TrimEndWhite(before + s, after);
    TrimStartWhite(before, s);
  }

  lemma TrimSplits(s: string) returns (before: string, after: string)
    ensures AllWhite(before) && AllWhite(after) && s == before + Trim(s) + after
  {
    hide TrimStart, TrimEnd;
    after := TrimEndSplits(s);
    before := TrimStartSplits(TrimEnd(s));
  }

  predicate AllAre(s: string, c: char) {
    forall i :: 0 <= i < |s| ==> s[i] == c
  }

  lemma {:induction false} TrimMatchesSplits(s: string, c: char) returns (after: string)
    ensures AllAre(after, c) && s == TrimEndMatches(s, c) + after
  {
    if s != [] && s[|s| - 1] == c {
      after := TrimMatchesSplits(s[..|s| - 1], c);
      after := after + [c];
    } else {
      after := "";
    }
  }

  lemma {:induction false} TrimMatchesIs(s: string, c: char, after: string)
    requires AllAre(after, c) && (s == "" || s[|s| - 1] != c)
    ensures TrimEndMatches(s + after, c) == s
  {
    if after == "" {
      assert s + after == s;
    } else {
      assert (s + after)[..|s + after| - 1] == s + after[..|after| - 1];
      TrimMatchesIs(s, c, after[..|after| - 1]);
    }
  }

  // What stands before the first c has none.
  lemma {:induction false} SplitOnceSplits(s: string, c: char)
    requires SplitOnce(s, c).Some?
    ensures var p := SplitOnce(s, c).value; c !in p.0 && s == p.0 + [c] + p.1
  {
    if s[0] == c {
      assert s == [] + [c] + s[1..];
    } else {
      SplitOnceSplits(s[1..], c);
      assert s == [s[0]] + s[1..];
    }
  }

  lemma ThreePartsSplit(s: string, c: char)
    requires |Split(s, c)| == 3
    ensures
      var parts := Split(s, c);
      && c !in parts[0] && c !in parts[1] && c !in parts[2]
      && s == parts[0] + [c] + parts[1] + [c] + parts[2]
  {
    SplitOnceSplits(s, c);
    var rest := SplitOnce(s, c).value.1;
    SplitOnceSplits(rest, c);
    assert Split(s, c) == [SplitOnce(s, c).value.0] + Split(rest, c);
    var last := SplitOnce(rest, c).value.1;
    assert Split(rest, c) == [SplitOnce(rest, c).value.0] + Split(last, c);
    assert Split(last, c) == [last];
  }
}
