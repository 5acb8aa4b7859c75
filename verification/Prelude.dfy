/** Small shared vocabulary: optional values, ASCII case folding, the code-point
    order on strings, and counting seconds. */
module Prelude {

  datatype Option<+T> = None | Some(value: T)

  function Min(x: int, y: int): int { if x <= y then x else y }

  function Max(x: int, y: int): int { if x >= y then x else y }

  // ----- ASCII case folding -------------------------------------------------

  function UpperChar(c: char): char {
    if 'a' <= c <= 'z' then c - 'a' + 'A' else c
  }

  function LowerChar(c: char): char {
    if 'A' <= c <= 'Z' then c - 'A' + 'a' else c
  }

  function Upper(s: string): (r: string)
    ensures |r| == |s|
  {
    seq(|s|, i requires 0 <= i < |s| => UpperChar(s[i]))
  }

  function Lower(s: string): (r: string)
    ensures |r| == |s|
  {
    seq(|s|, i requires 0 <= i < |s| => LowerChar(s[i]))
  }

  /** Rust's `eq_ignore_ascii_case`. */
  predicate EqIgnoreCase(a: string, b: string) {
    Lower(a) == Lower(b)
  }

  lemma UpperTwice(s: string)
    ensures Upper(Upper(s)) == Upper(s)
  {
  }

  /** Two strings agree up to case exactly when their upper-case forms agree. */
  lemma EqIgnoreCaseIsEqualUpper(a: string, b: string)
    ensures EqIgnoreCase(a, b) <==> Upper(a) == Upper(b)
  {
    if EqIgnoreCase(a, b) {
      forall i | 0 <= i < |a| ensures Upper(a)[i] == Upper(b)[i] {
        assert Lower(a)[i] == Lower(b)[i];
      }
    }
    if Upper(a) == Upper(b) {
      assert |a| == |b|;
      forall i | 0 <= i < |a| ensures Lower(a)[i] == Lower(b)[i] {
        assert Upper(a)[i] == Upper(b)[i];
      }
    }
  }

  /** Unicode's White_Space property, which is Rust's `char::is_whitespace`. */
  predicate IsWhitespace(c: char) {
    || '\t' <= c <= '\r' || c == ' '
    || c == '\U{85}' || c == '\U{A0}' || c == '\U{1680}'
    || '\U{2000}' <= c <= '\U{200A}'
    || c == '\U{2028}' || c == '\U{2029}' || c == '\U{202F}' || c == '\U{205F}' || c == '\U{3000}'
  }

  // ----- The order on strings -----------------------------------------------

  /** Lexicographic order by code point, which is Rust's order on `str`. */
  predicate TextLe(a: string, b: string) {
    a == [] || (b != [] && (a[0] < b[0] || (a[0] == b[0] && TextLe(a[1..], b[1..]))))
  }

  /** One text comes before another where they first differ, or by ending there. */
  lemma {:induction false} TextLeAt(a: string, b: string, k: nat)
    requires k <= |a| && k <= |b| && a[..k] == b[..k]
    ensures k == |a| ==> TextLe(a, b)
    ensures k == |b| < |a| ==> !TextLe(a, b)
    ensures k < |a| && k < |b| && a[k] != b[k] ==> (TextLe(a, b) <==> a[k] < b[k])
  {
    if k > 0 {
      assert a[0] == a[..k][0] && b[0] == b[..k][0];
      assert a[1..][..k - 1] == a[..k][1..] && b[1..][..k - 1] == b[..k][1..];
      TextLeAt(a[1..], b[1..], k - 1);
    }
  }

  lemma {:induction false} TextLeTotal(a: string, b: string)
    ensures TextLe(a, b) || TextLe(b, a)
    ensures TextLe(a, b) && TextLe(b, a) ==> a == b
  {
    if a != [] && b != [] && a[0] == b[0] {
      TextLeTotal(a[1..], b[1..]);
      assert a == [a[0]] + a[1..] && b == [b[0]] + b[1..];
    }
  }

  lemma {:induction false} TextLeTransitive(a: string, b: string, c: string)
    requires TextLe(a, b) && TextLe(b, c)
    ensures TextLe(a, c)
  {
    if a != [] && b[0] == a[0] && c[0] == b[0] {
      TextLeTransitive(a[1..], b[1..], c[1..]);
    }
  }

  // ----- Counting seconds ---------------------------------------------------

  /** How many seconds of `[lo, hi)` satisfy `p`. */
  function Count(p: int -> bool, lo: int, hi: int): (n: nat)
    ensures lo <= hi ==> n <= hi - lo
    decreases hi - lo
  {
    if hi <= lo then 0 else Count(p, lo, hi - 1) + (if p(hi - 1) then 1 else 0)
  }

  lemma {:induction false} CountSame(p: int -> bool, q: int -> bool, lo: int, hi: int)
    requires forall s :: lo <= s < hi ==> p(s) == q(s)
    ensures Count(p, lo, hi) == Count(q, lo, hi)
    decreases hi - lo
  {
    if lo < hi {
      CountSame(p, q, lo, hi - 1);
    }
  }

  lemma {:induction false} CountSplit(p: int -> bool, lo: int, mid: int, hi: int)
    requires lo <= mid <= hi
    ensures Count(p, lo, hi) == Count(p, lo, mid) + Count(p, mid, hi)
    decreases hi - mid
  {
    if mid < hi {
      CountSplit(p, lo, mid, hi - 1);
    }
  }

  /** Seconds counted by `p` are those counted by either of two exclusive parts. */
  lemma {:induction false} CountDisjoint(p: int -> bool, q: int -> bool, r: int -> bool, lo: int, hi: int)
    requires forall s :: lo <= s < hi ==> p(s) == (q(s) || r(s)) && !(q(s) && r(s))
    ensures Count(p, lo, hi) == Count(q, lo, hi) + Count(r, lo, hi)
    decreases hi - lo
  {
    if lo < hi {
      CountDisjoint(p, q, r, lo, hi - 1);
    }
  }

  lemma {:induction false} CountConstant(p: int -> bool, lo: int, hi: int, all: bool)
    requires lo <= hi
    requires forall s :: lo <= s < hi ==> p(s) == all
    ensures Count(p, lo, hi) == if all then hi - lo else 0
    decreases hi - lo
  {
    if lo < hi {
      CountConstant(p, lo, hi - 1, all);
    }
  }

  // ----- Sums ---------------------------------------------------------------

  function SumOver<T>(s: seq<T>, f: T -> nat): nat {
    if s == [] then 0 else SumOver(s[..|s| - 1], f) + f(s[|s| - 1])
  }

  lemma {:induction false} SumOverSnoc<T>(s: seq<T>, x: T, f: T -> nat)
    ensures SumOver(s + [x], f) == SumOver(s, f) + f(x)
  {
    assert (s + [x])[..|s|] == s;
  }

  function SumRange(f: int -> nat, first: int, k: nat): nat {
    if k == 0 then 0 else SumRange(f, first, k - 1) + f(first + k - 1)
  }

  function Compose<T>(f: T -> nat, g: int -> T): int -> nat {
    i => f(g(i))
  }

  /** `[g(first), ..., g(first + k - 1)]`. */
  function Tabulate<T>(g: int -> T, first: int, k: nat): (s: seq<T>)
    ensures |s| == k
  {
    if k == 0 then [] else Tabulate(g, first, k - 1) + [g(first + k - 1)]
  }

  lemma {:induction false} SumTabulate<T>(g: int -> T, f: T -> nat, first: int, k: nat)
    ensures SumOver(Tabulate(g, first, k), f) == SumRange(Compose(f, g), first, k)
  {
    if k > 0 {
      SumTabulate(g, f, first, k - 1);
      SumOverSnoc(Tabulate(g, first, k - 1), g(first + k - 1), f);
    }
  }

  /** `f(i)` counts the stretch from `bound(i)` to `bound(i + 1)`. */
  predicate CountsBetween(f: int -> nat, q: int -> bool, bound: int -> int, i: int) {
    bound(i) <= bound(i + 1) && f(i) == Count(q, bound(i), bound(i + 1))
  }

  lemma {:induction false} CountsBetweenIntro<T>(
    f: T -> nat, g: int -> T, q: int -> bool, bound: int -> int, i: int, x: T, lo: int, hi: int)
    requires g(i) == x && bound(i) == lo <= hi == bound(i + 1) && f(x) == Count(q, lo, hi)
    ensures CountsBetween(Compose(f, g), q, bound, i)
  {
  }

  /** Counts over consecutive stretches join into one count. */
  lemma {:induction false} CountsJoin(f: int -> nat, q: int -> bool, bound: int -> int, first: int, k: nat)
    requires forall i :: first <= i < first + k ==> CountsBetween(f, q, bound, i)
    ensures bound(first) <= bound(first + k)
    ensures SumRange(f, first, k) == Count(q, bound(first), bound(first + k))
  {
    if k > 0 {
      var last := first + k - 1;
      CountsJoin(f, q, bound, first, k - 1);
      assert CountsBetween(f, q, bound, last);
      CountSplit(q, bound(first), bound(last), bound(last + 1));
    }
  }
}
