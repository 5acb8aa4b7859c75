/** The classifiers' text preprocessing, and token-phrase matching by padded substring. */
module TokenText {
  import opened Prelude

  // ----- Normalization, as the classifier computes it -----------------------

  predicate IsAlphanumeric(c: char) {
    '0' <= c <= '9' || 'a' <= c <= 'z' || 'A' <= c <= 'Z'
  }

  function Trim(s: string): string {
    if s == "" then ""
    else if IsWhitespace(s[0]) then Trim(s[1..])
    else if IsWhitespace(s[|s| - 1]) then Trim(s[..|s| - 1])
    else s
  }

  function FoldChar(c: char): char {
    if IsAlphanumeric(c) || IsWhitespace(c) then c else ' '
  }

  function FoldChars(s: string): (r: string)
    ensures |r| == |s|
    ensures forall i :: 0 <= i < |s| ==> r[i] == FoldChar(s[i])
  {
    seq(|s|, i requires 0 <= i < |s| => FoldChar(s[i]))
  }

  /** How many characters at the front satisfy `p`. */
  function Span(s: string, p: char -> bool): (n: nat)
    ensures n <= |s|
    ensures forall i :: 0 <= i < n ==> p(s[i])
    ensures n < |s| ==> !p(s[n])
  {
    if s == "" || !p(s[0]) then 0 else 1 + Span(s[1..], p)
  }

  function InWord(): char -> bool { (c: char) => !IsWhitespace(c) }

  function SplitWhitespace(s: string): seq<string> {
    if s == "" then []
    else
      var n := Span(s, InWord());
      if n == 0 then SplitWhitespace(s[1..]) else [s[..n]] + SplitWhitespace(s[n..])
  }

  function Join(tokens: seq<string>): string {
    if tokens == [] then ""
    else if |tokens| == 1 then tokens[0]
    else tokens[0] + " " + Join(tokens[1..])
  }

  function Normalize(s: string): string {
    Join(SplitWhitespace(FoldChars(Lower(Trim(s)))))
  }

  function NormalizeInput(appName: string, windowTitle: string): string {
    Normalize(appName + " " + windowTitle)
  }

  predicate OccursAt(s: string, k: int, part: string) {
    0 <= k <= |s| - |part| && s[k..k + |part|] == part
  }

  predicate Contains(s: string, part: string) {
    exists k :: 0 <= k <= |s| && OccursAt(s, k, part)
  }

  predicate ContainsTokenPhrase(haystack: string, phrase: string) {
    var normalized := Normalize(phrase);
    normalized != "" && Contains(" " + haystack + " ", " " + normalized + " ")
  }

  // ----- Token lists --------------------------------------------------------

  function IsTokenChar(): char -> bool { (c: char) => IsAlphanumeric(c) }

  /** The maximal runs of ASCII letters and digits, in lower case. */
  function Tokens(s: string): seq<string> {
    if s == "" then []
    else
      var n := Span(s, IsTokenChar());
      if n == 0 then Tokens(s[1..]) else [Lower(s[..n])] + Tokens(s[n..])
  }

  predicate IsToken(t: string) {
    t != "" && forall i :: 0 <= i < |t| ==> IsAlphanumeric(t[i]) && LowerChar(t[i]) == t[i]
  }

  ghost predicate AllTokens(ts: seq<string>) {
    forall i :: 0 <= i < |ts| ==> IsToken(ts[i])
  }

  lemma {:induction false} SpanAt(s: string, p: char -> bool, n: nat)
    requires n <= |s| && (forall i :: 0 <= i < n ==> p(s[i])) && (n < |s| ==> !p(s[n]))
    ensures Span(s, p) == n
  {
  }

  lemma {:induction false} TokensAreTokens(s: string)
    ensures AllTokens(Tokens(s))
    decreases |s|
  {
    if s != "" {
      var n := Span(s, IsTokenChar());
      if n == 0 {
        TokensAreTokens(s[1..]);
      } else {
        TokensAreTokens(s[n..]);
        forall i | 0 <= i < n
          ensures IsAlphanumeric(Lower(s[..n])[i]) && LowerChar(Lower(s[..n])[i]) == Lower(s[..n])[i]
        {
          assert IsTokenChar()(s[i]);
        }
      }
    }
  }

  lemma {:induction false} SpanAround(a: string, c: char, b: string)
    requires !IsAlphanumeric(c)
    ensures Span(a + [c] + b, IsTokenChar()) == Span(a, IsTokenChar())
  {
    var s, n := a + [c] + b, Span(a, IsTokenChar());
    assert forall i :: 0 <= i < |a| ==> s[i] == a[i];
    assert s[|a|] == c;
    SpanAt(s, IsTokenChar(), n);
  }

  lemma SliceAround(a: string, c: char, b: string, n: nat)
    requires n <= |a|
    ensures (a + [c] + b)[..n] == a[..n] && (a + [c] + b)[n..] == a[n..] + [c] + b
  {
  }

  /** A character outside every token separates what is on its two sides. */
  lemma {:induction false} TokensAround(a: string, c: char, b: string)
    requires !IsAlphanumeric(c)
    ensures Tokens(a + [c] + b) == Tokens(a) + Tokens(b)
    decreases |a|
  {
    var n := Span(a, IsTokenChar());
    SpanAround(a, c, b);
    if a == "" {
      assert (a + [c] + b)[1..] == b;
    } else if n == 0 {
      SliceAround(a, c, b, 1);
      TokensAround(a[1..], c, b);
    } else {
      SliceAround(a, c, b, n);
      TokensAround(a[n..], c, b);
    }
  }

  lemma {:induction false} TokensAfterSpace(c: char, s: string)
    requires !IsAlphanumeric(c)
    ensures Tokens([c] + s) == Tokens(s)
  {
    TokensAround("", c, s);
    assert "" + [c] + s == [c] + s;
  }

  lemma {:induction false} TokensBeforeSpace(s: string, c: char)
    requires !IsAlphanumeric(c)
    ensures Tokens(s + [c]) == Tokens(s)
  {
    TokensAround(s, c, "");
    assert s + [c] + "" == s + [c];
  }

  lemma {:induction false} TokensOfTrim(s: string)
    ensures Tokens(Trim(s)) == Tokens(s)
    decreases |s|
  {
    if s != "" {
      if IsWhitespace(s[0]) {
        assert s == [s[0]] + s[1..];
        TokensAfterSpace(s[0], s[1..]);
        TokensOfTrim(s[1..]);
      } else if IsWhitespace(s[|s| - 1]) {
        assert s == s[..|s| - 1] + [s[|s| - 1]];
        TokensBeforeSpace(s[..|s| - 1], s[|s| - 1]);
        TokensOfTrim(s[..|s| - 1]);
      }
    }
  }

  lemma FoldedChars(s: string)
    ensures var f := FoldChars(Lower(s)); forall i :: 0 <= i < |s| ==>
      InWord()(f[i]) == IsTokenChar()(s[i]) && (IsTokenChar()(s[i]) ==> f[i] == LowerChar(s[i]))
  {
  }

  lemma FoldedTail(s: string, n: nat)
    requires n <= |s|
    ensures FoldChars(Lower(s))[n..] == FoldChars(Lower(s[n..]))
  {
  }

  lemma FoldedToken(s: string, n: nat)
    requires n <= |s| && forall i :: 0 <= i < n ==> IsTokenChar()(s[i])
    ensures FoldChars(Lower(s))[..n] == Lower(s[..n])
  {
    FoldedChars(s);
  }

  /** Folding then splitting at whitespace reads off the tokens. */
  lemma {:induction false} SplitIsTokens(s: string)
    ensures SplitWhitespace(FoldChars(Lower(s))) == Tokens(s)
    decreases |s|
  {
    if s != "" {
      var f, n := FoldChars(Lower(s)), Span(s, IsTokenChar());
      FoldedChars(s);
      SpanAt(f, InWord(), n);
      if n == 0 {
        SplitIsTokens(s[1..]);
        FoldedTail(s, 1);
      } else {
        SplitIsTokens(s[n..]);
        FoldedTail(s, n);
        FoldedToken(s, n);
      }
    }
  }

  lemma {:induction false} NormalizeIsJoin(s: string)
    ensures Normalize(s) == Join(Tokens(s))
  {
    SplitIsTokens(Trim(s));
    TokensOfTrim(s);
  }

  lemma {:induction false} TokensOfToken(t: string)
    requires IsToken(t)
    ensures Tokens(t) == [t]
  {
    SpanAt(t, IsTokenChar(), |t|);
    assert t[..|t|] == t && Lower(t) == t;
    assert Tokens(t[|t|..]) == [];
  }

  lemma {:induction false} TokensOfJoin(ts: seq<string>)
    requires AllTokens(ts)
    ensures Tokens(Join(ts)) == ts
  {
    if |ts| == 1 {
      TokensOfToken(ts[0]);
    } else if |ts| > 1 {
      TokensOfToken(ts[0]);
      TokensOfJoin(ts[1..]);
      TokensAround(ts[0], ' ', Join(ts[1..]));
    }
  }

  /** Normalizing keeps the token list, is idempotent, and two texts normalize alike exactly when their
      token lists agree. */
  lemma {:induction false} NormalizeKeepsTokens(s: string, other: string)
    ensures Tokens(Normalize(s)) == Tokens(s)
    ensures Normalize(Normalize(s)) == Normalize(s)
    ensures Normalize(s) == Normalize(other) <==> Tokens(s) == Tokens(other)
  {
    NormalizeIsJoin(s);
    NormalizeIsJoin(other);
    TokensAreTokens(s);
    TokensAreTokens(other);
    TokensOfJoin(Tokens(s));
    TokensOfJoin(Tokens(other));
    NormalizeIsJoin(Normalize(s));
  }

  /** A name and a title normalize to the tokens of the one followed by the tokens of the other. */
  lemma {:induction false} InputTokensConcatenate(appName: string, windowTitle: string)
    ensures Tokens(NormalizeInput(appName, windowTitle)) == Tokens(appName) + Tokens(windowTitle)
  {
    NormalizeKeepsTokens(appName + " " + windowTitle, "");
    TokensAround(appName, ' ', windowTitle);
  }

  // ----- Padded substrings and sublists -------------------------------------

  /** A leading space, then each token with a space after it. */
  function Padded(ts: seq<string>): string {
    if ts == [] then " " else " " + ts[0] + Padded(ts[1..])
  }

  lemma PadFirst(first: string, others: string)
    ensures " " + (first + " " + others) + " " == " " + first + (" " + others + " ")
  {
  }

  lemma {:induction false} PaddedIsJoin(ts: seq<string>)
    requires ts != []
    ensures " " + Join(ts) + " " == Padded(ts)
  {
    if |ts| == 1 {
      assert Padded(ts[1..]) == " ";
    } else {
      PaddedIsJoin(ts[1..]);
      PadFirst(ts[0], Join(ts[1..]));
    }
  }

  lemma {:induction false} PaddedLength(ts: seq<string>)
    ensures |Padded(ts)| >= 1 && Padded(ts)[0] == ' '
    ensures AllTokens(ts) && ts != [] ==> |Padded(ts)| >= 3
  {
    if ts != [] {
      PaddedLength(ts[1..]);
      assert AllTokens(ts) ==> IsToken(ts[0]);
    }
  }

  lemma FirstTokenAgrees(t: string, rest: string, u: string, more: string)
    requires IsToken(t) && IsToken(u) && rest != "" && rest[0] == ' ' && more != "" && more[0] == ' '
    requires " " + u + more <= " " + t + rest
    ensures u == t && more <= rest
  {
    var a, b := " " + t + rest, " " + u + more;
    assert forall i :: 0 <= i < |b| ==> a[i] == b[i];
    assert forall i :: 0 <= i < |t| ==> a[1 + i] == t[i];
    assert forall i :: 0 <= i < |u| ==> b[1 + i] == u[i];
    assert a[1 + |t|] == ' ' && b[1 + |u|] == ' ';
    assert |u| == |t|;
    assert u == t;
    assert more == b[1 + |u|..] && rest == a[1 + |t|..];
  }

  lemma {:induction false} PaddedPrefix(ts: seq<string>, ps: seq<string>)
    requires AllTokens(ts) && AllTokens(ps)
    ensures Padded(ps) <= Padded(ts) <==> ps <= ts
  {
    PaddedLength(ts);
    PaddedLength(ps);
    if ps != [] && ts != [] {
      PaddedPrefix(ts[1..], ps[1..]);
      PaddedLength(ts[1..]);
      PaddedLength(ps[1..]);
      if Padded(ps) <= Padded(ts) {
        FirstTokenAgrees(ts[0], Padded(ts[1..]), ps[0], Padded(ps[1..]));
        assert ps == [ps[0]] + ps[1..] && ts == [ts[0]] + ts[1..];
      }
      if ps <= ts {
        assert ps[0] == ts[0] && ps[1..] <= ts[1..];
      }
    }
  }

  ghost predicate IsSublist(ts: seq<string>, ps: seq<string>) {
    exists k :: 0 <= k <= |ts| && ps <= ts[k..]
  }

  lemma SublistTail(ts: seq<string>, ps: seq<string>)
    requires ts != []
    ensures IsSublist(ts, ps) <==> ps <= ts || IsSublist(ts[1..], ps)
  {
    if IsSublist(ts, ps) {
      var k :| 0 <= k <= |ts| && ps <= ts[k..];
      if k > 0 {
        assert ts[1..][k - 1..] == ts[k..];
      }
    }
    if ps <= ts {
      assert ts[0..] == ts;
    }
    if IsSublist(ts[1..], ps) {
      var k :| 0 <= k <= |ts| - 1 && ps <= ts[1..][k..];
      assert ts[1..][k..] == ts[k + 1..];
    }
  }

  /** Text in front moves every occurrence along. */
  lemma OccursShift(front: string, text: string, k: nat, part: string)
    ensures OccursAt(front + text, |front| + k, part) <==> OccursAt(text, k, part)
  {
    if k + |part| <= |text| {
      assert (front + text)[|front| + k..|front| + k + |part|] == text[k..k + |part|];
    }
  }

  /** An occurrence of a padded phrase starts at a space, so at a token boundary. */
  lemma OccurrenceTail(t: string, rest: string, part: string)
    requires IsToken(t) && part != "" && part[0] == ' '
    ensures Contains(" " + t + rest, part) <==> part <= " " + t + rest || Contains(rest, part)
  {
    var front := " " + t;
    var s := front + rest;
    if Contains(s, part) {
      var k :| 0 <= k <= |s| && OccursAt(s, k, part);
      if k < |front| {
        assert s[k] == front[k];
        assert k == 0;
      } else {
        OccursShift(front, rest, k - |front|, part);
      }
    }
    if part <= s {
      assert OccursAt(s, 0, part);
    }
    if Contains(rest, part) {
      var j :| 0 <= j <= |rest| && OccursAt(rest, j, part);
      OccursShift(front, rest, j, part);
      assert OccursAt(s, |front| + j, part);
    }
  }

  lemma {:induction false} PaddedContains(ts: seq<string>, ps: seq<string>)
    requires AllTokens(ts) && AllTokens(ps) && ps != []
    ensures Contains(Padded(ts), Padded(ps)) <==> IsSublist(ts, ps)
  {
    PaddedLength(ps);
    if ts != [] {
      PaddedContains(ts[1..], ps);
      PaddedPrefix(ts, ps);
      SublistTail(ts, ps);
      OccurrenceTail(ts[0], Padded(ts[1..]), Padded(ps));
    }
  }

  /** Main result: on a normalized haystack the padded-substring test is token-list matching. */
  lemma {:induction false} PhraseIsSublist(text: string, phrase: string)
    ensures ContainsTokenPhrase(Normalize(text), phrase) <==>
            Tokens(phrase) != [] && IsSublist(Tokens(text), Tokens(phrase))
  {
    var ts, ps := Tokens(text), Tokens(phrase);
    NormalizeIsJoin(text);
    NormalizeIsJoin(phrase);
    TokensAreTokens(text);
    TokensAreTokens(phrase);
    JoinEmpty(ps);
    if ps != [] {
      PaddedIsJoin(ps);
      PaddedLength(ps);
      if ts != [] {
        PaddedIsJoin(ts);
        PaddedContains(ts, ps);
      }
    }
  }

  lemma {:induction false} JoinEmpty(ts: seq<string>)
    requires AllTokens(ts)
    ensures Join(ts) == "" <==> ts == []
  {
    if ts != [] {
      assert IsToken(ts[0]);
    }
  }
}
