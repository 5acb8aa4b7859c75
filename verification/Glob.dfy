/** Seed patterns: a greedy walk over the literals between `*`s stands in for glob matching. */
module Glob {
  import opened Prelude
  import opened TokenText

  // ----- Splitting at `*` ---------------------------------------------------

  function NotStar(): char -> bool { (c: char) => c != '*' }

  function SplitStars(s: string): (parts: seq<string>)
    ensures parts != []
    decreases |s|
  {
    var n := Span(s, NotStar());
    if n == |s| then [s] else [s[..n]] + SplitStars(s[n + 1..])
  }

  function JoinStars(parts: seq<string>): string
    requires parts != []
  {
    if |parts| == 1 then parts[0] else parts[0] + "*" + JoinStars(parts[1..])
  }

  function NormalizeEach(parts: seq<string>): (r: seq<string>)
    ensures |r| == |parts|
  {
    seq(|parts|, i requires 0 <= i < |parts| => Normalize(parts[i]))
  }

  /** The literals of a pattern, each normalized on its own. */
  function Literals(pattern: string): (parts: seq<string>)
    ensures parts != []
  {
    NormalizeEach(SplitStars(pattern))
  }

  predicate StarFree(s: string) { forall i :: 0 <= i < |s| ==> s[i] != '*' }

  lemma {:induction false} JoinIsStarFree(ts: seq<string>)
    requires AllTokens(ts)
    ensures StarFree(Join(ts))
  {
    if |ts| >= 1 {
      assert IsToken(ts[0]) && StarFree(ts[0]);
    }
    if |ts| > 1 {
      JoinIsStarFree(ts[1..]);
    }
  }

  lemma NormalizeIsStarFree(s: string)
    ensures StarFree(Normalize(s))
  {
    NormalizeIsJoin(s);
    TokensAreTokens(s);
    JoinIsStarFree(Tokens(s));
  }

  /** Joining normalized literals with `*` and splitting again gives the literals back. */
  lemma {:induction false} SplitOfJoin(parts: seq<string>)
    requires parts != [] && forall i :: 0 <= i < |parts| ==> StarFree(parts[i])
    ensures SplitStars(JoinStars(parts)) == parts
  {
    assert StarFree(parts[0]);
    if |parts| == 1 {
      SpanAt(parts[0], NotStar(), |parts[0]|);
    } else {
      SplitAtStar(parts[0], JoinStars(parts[1..]));
      SplitOfJoin(parts[1..]);
    }
  }

  lemma {:induction false} SplitAtStar(literal: string, rest: string)
    requires StarFree(literal)
    ensures SplitStars(literal + "*" + rest) == [literal] + SplitStars(rest)
  {
    var s := literal + "*" + rest;
    assert s[..|literal|] == literal && s[|literal|] == '*' && s[|literal| + 1..] == rest;
    SpanAt(s, NotStar(), |literal|);
  }

  lemma {:induction false} EndsOfJoin(parts: seq<string>)
    requires |parts| > 1 && forall i :: 0 <= i < |parts| ==> StarFree(parts[i])
    ensures JoinStars(parts) != "" && (JoinStars(parts)[0] == '*' <==> parts[0] == "")
    ensures JoinStars(parts)[|JoinStars(parts)| - 1] == '*' <==> parts[|parts| - 1] == ""
  {
    assert StarFree(parts[0]) && StarFree(parts[|parts| - 1]);
    if |parts| > 2 {
      EndsOfJoin(parts[1..]);
    }
  }

  // ----- The greedy walk ----------------------------------------------------

  /** The leftmost occurrence of `part` from `k` on. */
  function FindFrom(s: string, part: string, k: nat): (r: Option<nat>)
    requires k <= |s|
    ensures r.Some? ==> k <= r.value && OccursAt(s, r.value, part)
    ensures r.Some? ==> forall j :: k <= j < r.value ==> !OccursAt(s, j, part)
    ensures r.None? ==> forall j :: k <= j <= |s| ==> !OccursAt(s, j, part)
    decreases |s| - k
  {
    if OccursAt(s, k, part) then Some(k) else if k == |s| then None else FindFrom(s, part, k + 1)
  }

  function Find(s: string, part: string): Option<nat> { FindFrom(s, part, 0) }

  /** What follows the leftmost occurrence of `part`; a pattern's first literal must stand at the start. */
  function Place(remainder: string, part: string, first: bool): Option<string> {
    var position := Find(remainder, part);
    if position.None? || (first && position.value != 0) then None else Some(remainder[position.value + |part|..])
  }

  /** What is left after placing the literals `parts[i..n]` greedily; the first must stand at the start. */
  function Walk(remainder: string, parts: seq<string>, i: nat, n: nat): Option<string>
    requires i <= n <= |parts|
    decreases n - i
  {
    if i == n then Some(remainder)
    else if parts[i] == "" then Walk(remainder, parts, i + 1, n)
    else match Place(remainder, parts[i], i == 0)
      case None => None
      case Some(rest) => Walk(rest, parts, i + 1, n)
  }

  predicate Matches(parts: seq<string>, value: string)
    requires parts != []
  {
    if |parts| == 1 then parts[0] == value
    else
      var left := Walk(value, parts, 0, |parts|);
      left.Some? && (parts[|parts| - 1] == "" || left.value == "")
  }

  /** The loop over the literals; an early `false` is no remainder at all. */
  method GreedyWalk(parts: seq<string>, startsWithStar: bool, text: string) returns (left: Option<string>)
    requires parts != [] && (startsWithStar <==> parts[0] == "")
    ensures left == Walk(text, parts, 0, |parts|)
  {
    var remainder := text;
    for index := 0 to |parts|
      invariant Walk(text, parts, 0, |parts|) == Walk(remainder, parts, index, |parts|)
    {
      if parts[index] == "" {
        continue;
      }
      var position := Find(remainder, parts[index]);
      if position.None? {
        return None;
      }
      if index == 0 && !startsWithStar && position.value != 0 {
        return None;
      }
      remainder := remainder[position.value + |parts[index]|..];
    }
    left := Some(remainder);
  }

  method PatternMatches(pattern: string, value: string) returns (matches: bool)
    ensures matches == Matches(Literals(pattern), Normalize(value))
  {
    var normalized := JoinStars(Literals(pattern));
    LiteralsRejoin(pattern);
    var parts := SplitStars(normalized);
    var text := Normalize(value);
    if |parts| == 1 {
      return normalized == text;
    }
    var left := GreedyWalk(parts, normalized[0] == '*', text);
    matches := left.Some? && (normalized[|normalized| - 1] == '*' || left.value == "");
  }

  lemma LiteralsRejoin(pattern: string)
    ensures var literals := Literals(pattern); var normalized := JoinStars(literals);
      && SplitStars(normalized) == literals
      && (|literals| == 1 ==> normalized == literals[0])
      && (|literals| > 1 ==>
            && normalized != ""
            && (normalized[0] == '*' <==> literals[0] == "")
            && (normalized[|normalized| - 1] == '*' <==> literals[|literals| - 1] == ""))
  {
    var literals := Literals(pattern);
    forall i | 0 <= i < |literals| ensures StarFree(literals[i]) {
      NormalizeIsStarFree(SplitStars(pattern)[i]);
    }
    SplitOfJoin(literals);
    if |literals| > 1 {
      EndsOfJoin(literals);
    }
  }

  // ----- Glob semantics -----------------------------------------------------

  predicate EndsWith(s: string, part: string) {
    OccursAt(s, |s| - |part|, part)
  }

  /** `text` matches `*parts[i]*parts[i+1]*...parts[last]`. */
  ghost predicate GlobFrom(parts: seq<string>, i: nat, text: string)
    requires 0 < i < |parts|
    decreases |parts| - i
  {
    if i == |parts| - 1 then EndsWith(text, parts[i])
    else exists k :: OccursAt(text, k, parts[i]) && GlobFrom(parts, i + 1, text[k + |parts[i]|..])
  }

  /** `text` is the literals in order, with anything at all in place of each `*`. */
  ghost predicate GlobMatches(parts: seq<string>, text: string)
    requires parts != []
  {
    if |parts| == 1 then text == parts[0]
    else parts[0] <= text && GlobFrom(parts, 1, text[|parts[0]|..])
  }

  /** More text in front never breaks a match after a `*`. */
  lemma {:induction false} GlobFromWiden(parts: seq<string>, i: nat, front: string, text: string)
    requires 0 < i < |parts| && GlobFrom(parts, i, text)
    ensures GlobFrom(parts, i, front + text)
  {
    if i == |parts| - 1 {
      OccursShift(front, text, |text| - |parts[i]|, parts[i]);
    } else {
      var k :| OccursAt(text, k, parts[i]) && GlobFrom(parts, i + 1, text[k + |parts[i]|..]);
      OccursShift(front, text, k, parts[i]);
      assert (front + text)[|front| + k + |parts[i]|..] == text[k + |parts[i]|..];
    }
  }

  /** Placing a literal at its leftmost occurrence leaves every match of the rest possible. */
  lemma LeftmostIsBest(parts: seq<string>, i: nat, text: string)
    requires 0 < i < |parts| - 1
    ensures GlobFrom(parts, i, text) <==>
            Find(text, parts[i]).Some? && GlobFrom(parts, i + 1, text[Find(text, parts[i]).value + |parts[i]|..])
  {
    var found := Find(text, parts[i]);
    if GlobFrom(parts, i, text) {
      var k :| OccursAt(text, k, parts[i]) && GlobFrom(parts, i + 1, text[k + |parts[i]|..]);
      assert found.Some? && found.value <= k;
      var a, b := found.value + |parts[i]|, k + |parts[i]|;
      assert text[a..] == text[a..b] + text[b..];
      GlobFromWiden(parts, i + 1, text[a..b], text[b..]);
    }
    if found.Some? && GlobFrom(parts, i + 1, text[found.value + |parts[i]|..]) {
      assert OccursAt(text, found.value, parts[i]);
    }
  }

  lemma FindEmpty(text: string)
    ensures Find(text, "") == Some(0)
  {
    assert OccursAt(text, 0, "");
  }

  /** A match after a `*` is decided by the greedy walk over all literals but the last. */
  lemma {:induction false} GlobFromIsWalk(parts: seq<string>, i: nat, text: string)
    requires 0 < i < |parts|
    ensures GlobFrom(parts, i, text) <==>
            Walk(text, parts, i, |parts| - 1).Some? &&
            EndsWith(Walk(text, parts, i, |parts| - 1).value, parts[|parts| - 1])
    decreases |parts| - i
  {
    if i < |parts| - 1 {
      LeftmostIsBest(parts, i, text);
      FindEmpty(text);
      var found := Find(text, parts[i]);
      if found.Some? {
        GlobFromIsWalk(parts, i + 1, text[found.value + |parts[i]|..]);
      }
    }
  }

  lemma {:induction false} FirstLiteral(parts: seq<string>, text: string, n: nat)
    requires 0 < n <= |parts|
    ensures Walk(text, parts, 0, n) ==
            if parts[0] <= text then Walk(text[|parts[0]|..], parts, 1, n) else None
  {
    if parts[0] == "" {
      assert text[0..] == text;
    } else if parts[0] <= text {
      assert OccursAt(text, 0, parts[0]);
    } else {
      assert !OccursAt(text, 0, parts[0]);
    }
  }

  /** What is left of `left` once its last literal is placed. */
  function PlaceLast(left: Option<string>, last: string): Option<string> {
    if left.None? || last == "" then left else Place(left.value, last, false)
  }

  lemma {:induction false} WalkLast(parts: seq<string>, i: nat, text: string)
    requires i < |parts| && (i == 0 ==> |parts| > 1)
    ensures Walk(text, parts, i, |parts|) == PlaceLast(Walk(text, parts, i, |parts| - 1), parts[|parts| - 1])
    decreases |parts| - i
  {
    if i < |parts| - 1 {
      if parts[i] == "" {
        WalkLast(parts, i + 1, text);
      } else {
        var placed := Place(text, parts[i], i == 0);
        if placed.Some? {
          WalkLast(parts, i + 1, placed.value);
        }
      }
    } else {
      assert Walk(text, parts, i, |parts| - 1) == Some(text);
    }
  }

  /** A glob match, read off what the walk leaves for the last literal. */
  lemma {:induction false} GlobIsWalk(parts: seq<string>, text: string)
    requires |parts| > 1
    ensures GlobMatches(parts, text) <==>
            Walk(text, parts, 0, |parts| - 1).Some? &&
            EndsWith(Walk(text, parts, 0, |parts| - 1).value, parts[|parts| - 1])
  {
    FirstLiteral(parts, text, |parts| - 1);
    if parts[0] <= text {
      GlobFromIsWalk(parts, 1, text[|parts[0]|..]);
    }
  }

  /** The walk accepts when the last literal first occurs at the end of what is left for it. */
  lemma {:induction false} MatchesIsWalk(parts: seq<string>, text: string)
    requires |parts| > 1 && parts[|parts| - 1] != ""
    ensures var left, last := Walk(text, parts, 0, |parts| - 1), parts[|parts| - 1];
      Matches(parts, text) <==> left.Some? && Find(left.value, last) == Some(|left.value| - |last|)
  {
    WalkLast(parts, 0, text);
    var left := Walk(text, parts, 0, |parts| - 1);
    if left.Some? {
      var found := Find(left.value, parts[|parts| - 1]);
      assert found.Some? ==> OccursAt(left.value, found.value, parts[|parts| - 1]);
    }
  }

  // ----- The walk on a prefix -----------------------------------------------

  lemma OccursInPrefix(text: string, part: string, k: nat, p: int)
    requires k <= |text|
    ensures OccursAt(text[..k], p, part) <==> OccursAt(text, p, part) && p + |part| <= k
  {
    if 0 <= p && p + |part| <= k {
      assert text[..k][p..p + |part|] == text[p..p + |part|];
    }
  }

  lemma FindInPrefix(text: string, part: string, k: nat)
    requires k <= |text|
    ensures Find(text[..k], part) ==
            if Find(text, part).Some? && Find(text, part).value + |part| <= k then Find(text, part) else None
  {
    var whole, cut := Find(text, part), Find(text[..k], part);
    if cut.Some? {
      OccursInPrefix(text, part, k, cut.value);
    }
    if whole.Some? {
      OccursInPrefix(text, part, k, whole.value);
      if cut.Some? {
        OccursInPrefix(text, part, k, cut.value);
      }
    }
  }

  /** `left` without its last `dropped` characters, if it has that many. */
  function DropLast(left: Option<string>, dropped: nat): Option<string> {
    if left.Some? && dropped <= |left.value| then Some(left.value[..|left.value| - dropped]) else None
  }

  lemma PlaceInPrefix(text: string, part: string, first: bool, dropped: nat)
    requires dropped <= |text|
    ensures Place(text[..|text| - dropped], part, first) == DropLast(Place(text, part, first), dropped)
    ensures Place(text, part, first).Some? ==> |Place(text, part, first).value| <= |text|
  {
    var k := |text| - dropped;
    FindInPrefix(text, part, k);
    var found := Find(text, part);
    if found.Some? && found.value + |part| <= k {
      var rest := text[found.value + |part|..];
      assert text[..k][found.value + |part|..] == rest[..|rest| - dropped];
    }
  }

  /** What a walk leaves is no longer than the text, and dropping the end of the text drops the end of it, or
      stops the walk. */
  predicate CutsAlong(text: string, parts: seq<string>, i: nat, n: nat, dropped: nat)
    requires i <= n <= |parts| && dropped <= |text|
  {
    var left := Walk(text, parts, i, n);
    && (left.Some? ==> |left.value| <= |text|)
    && Walk(text[..|text| - dropped], parts, i, n) == DropLast(left, dropped)
  }

  lemma StepInPrefix(text: string, parts: seq<string>, i: nat, n: nat, dropped: nat, placed: Option<string>)
    requires i < n <= |parts| && dropped <= |text| && parts[i] != ""
    requires placed == Place(text, parts[i], i == 0)
    requires placed.Some? ==> CutsAlong(placed.value, parts, i + 1, n, Min(dropped, |placed.value|))
    ensures CutsAlong(text, parts, i, n, dropped)
  {
    PlaceInPrefix(text, parts[i], i == 0, dropped);
    assert Walk(text, parts, i, n) == if placed.None? then None else Walk(placed.value, parts, i + 1, n);
    var cut := DropLast(placed, dropped);
    assert Walk(text[..|text| - dropped], parts, i, n) == if cut.None? then None else Walk(cut.value, parts, i + 1, n);
  }

  lemma {:induction false} WalkInPrefix(text: string, parts: seq<string>, i: nat, n: nat, dropped: nat)
    requires i <= n <= |parts| && dropped <= |text|
    ensures CutsAlong(text, parts, i, n, dropped)
    decreases n - i
  {
    if i < n {
      if parts[i] == "" {
        WalkInPrefix(text, parts, i + 1, n, dropped);
      } else {
        var placed := Place(text, parts[i], i == 0);
        if placed.Some? {
          WalkInPrefix(placed.value, parts, i + 1, n, Min(dropped, |placed.value|));
        }
        StepInPrefix(text, parts, i, n, dropped, placed);
      }
    }
  }

  /** A shorter text already matches. */
  ghost predicate MatchesEarlier(parts: seq<string>, text: string)
    requires parts != []
  {
    exists k :: 0 <= k < |text| && GlobMatches(parts, text[..k])
  }

  lemma {:induction false} PrefixGlob(parts: seq<string>, text: string, dropped: nat)
    requires |parts| > 1 && dropped <= |text|
    ensures var left, last := DropLast(Walk(text, parts, 0, |parts| - 1), dropped), parts[|parts| - 1];
      GlobMatches(parts, text[..|text| - dropped]) <==> left.Some? && EndsWith(left.value, last)
  {
    WalkInPrefix(text, parts, 0, |parts| - 1, dropped);
    GlobIsWalk(parts, text[..|text| - dropped]);
  }

  /** A walk that accepts leaves no shorter match. */
  lemma AcceptedIsShortest(parts: seq<string>, text: string, k: nat)
    requires |parts| > 1 && parts[|parts| - 1] != "" && Matches(parts, text) && k < |text|
    ensures !GlobMatches(parts, text[..k])
  {
    var last := parts[|parts| - 1];
    MatchesIsWalk(parts, text);
    PrefixGlob(parts, text, |text| - k);
    var left := Walk(text, parts, 0, |parts| - 1).value;
    var j := |left| - (|text| - k);
    if 0 <= j && EndsWith(left[..j], last) {
      OccursInPrefix(left, last, j, j - |last|);
    }
  }

  /** A match the walk rejects has a shorter one: where the last literal first occurs. */
  lemma RejectedIsLonger(parts: seq<string>, text: string)
    requires |parts| > 1 && parts[|parts| - 1] != "" && GlobMatches(parts, text) && !Matches(parts, text)
    ensures MatchesEarlier(parts, text)
  {
    var last := parts[|parts| - 1];
    MatchesIsWalk(parts, text);
    GlobIsWalk(parts, text);
    WalkInPrefix(text, parts, 0, |parts| - 1, 0);
    var left := Walk(text, parts, 0, |parts| - 1).value;
    var end := Find(left, last).value + |last|;
    OccursInPrefix(left, last, end, end - |last|);
    PrefixGlob(parts, text, |left| - end);
    assert GlobMatches(parts, text[..|text| - (|left| - end)]);
  }

  /** Main result. For a pattern with no `*` or ending in one, the walk is glob matching. For any other, it
      accepts exactly the glob matches no proper prefix of which matches too. */
  lemma MatchesIffGlob(parts: seq<string>, text: string)
    requires parts != []
    ensures |parts| == 1 || parts[|parts| - 1] == "" ==> (Matches(parts, text) <==> GlobMatches(parts, text))
    ensures |parts| > 1 && parts[|parts| - 1] != "" ==>
              (Matches(parts, text) <==> GlobMatches(parts, text) && !MatchesEarlier(parts, text))
  {
    if |parts| > 1 {
      GlobIsWalk(parts, text);
      if parts[|parts| - 1] == "" {
        WalkLast(parts, 0, text);
      } else if Matches(parts, text) {
        MatchesIsWalk(parts, text);
        forall k | 0 <= k < |text| ensures !GlobMatches(parts, text[..k]) {
          AcceptedIsShortest(parts, text, k);
        }
      } else if GlobMatches(parts, text) {
        RejectedIsLonger(parts, text);
      }
    }
  }

  lemma NormalizeToken(t: string)
    requires IsToken(t)
    ensures Normalize(t) == t
  {
    NormalizeIsJoin(t);
    TokensOfToken(t);
  }

  lemma StarAbSplits()
    ensures SplitStars("*ab") == ["", "ab"]
  {
    var rest := "ab";
    assert StarFree(rest) && "" + "*" + rest == "*ab";
    SpanAt(rest, NotStar(), |rest|);
    assert SplitStars(rest) == [rest];
    SplitAtStar("", rest);
  }

  lemma StarAbLiterals()
    ensures Literals("*ab") == ["", "ab"]
  {
    StarAbSplits();
    NormalizeIsJoin("");
    assert Tokens("") == [];
    NormalizeToken("ab");
  }

  lemma EmptyFirstRejectsRepeat(parts: seq<string>, text: string)
    requires |parts| == 2 && parts[0] == "" && parts[1] != "" && text == parts[1] + parts[1]
    ensures GlobMatches(parts, text) && !Matches(parts, text)
  {
    var last := parts[1];
    assert text[0..] == text && text[|last|..|last| + |last|] == last && text[0..|last|] == last;
    assert GlobFrom(parts, 1, text);
    assert OccursAt(text, 0, last);
    assert Walk(text, parts, 0, 1) == Some(text);
    MatchesIsWalk(parts, text);
  }

  /** The walk is strictly narrower than a glob: `*ab` turns `abab` away. */
  lemma StarAbRejectsAbab()
    ensures !Matches(Literals("*ab"), Normalize("abab"))
    ensures GlobMatches(Literals("*ab"), Normalize("abab"))
  {
    StarAbLiterals();
    assert IsToken("abab") && "abab" == "ab" + "ab";
    NormalizeToken("abab");
    EmptyFirstRejectsRepeat(["", "ab"], "abab");
  }
}
