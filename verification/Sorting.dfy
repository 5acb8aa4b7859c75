/** The stable sort that Rust's `sort_by` and Python's `sorted` both compute. */
module Sorting {
  import opened Prelude

  ghost predicate Comparable<T>(le: (T, T) -> bool, x: T, y: T) {
    le(x, y) || le(y, x)
  }

  ghost predicate Chains<T>(le: (T, T) -> bool, x: T, y: T, z: T) {
    le(x, y) && le(y, z) ==> le(x, z)
  }

  ghost predicate TotalPreorder<T(!new)>(le: (T, T) -> bool) {
    && (forall x, y :: Comparable(le, x, y))
    && (forall x, y, z :: Chains(le, x, y, z))
  }

  ghost predicate Sorted<T>(s: seq<T>, le: (T, T) -> bool) {
    forall i, j :: 0 <= i < j < |s| ==> le(s[i], s[j])
  }

  /** `x` goes after every element that is not greater, which is what keeps the sort stable. */
  function Insert<T>(x: T, s: seq<T>, le: (T, T) -> bool): (r: seq<T>)
    ensures |r| == |s| + 1
  {
    if s == [] || le(s[|s| - 1], x) then s + [x] else Insert(x, s[..|s| - 1], le) + [s[|s| - 1]]
  }

  function SortBy<T>(s: seq<T>, le: (T, T) -> bool): (r: seq<T>)
    ensures |r| == |s|
  {
    if s == [] then [] else Insert(s[|s| - 1], SortBy(s[..|s| - 1], le), le)
  }

  function Filter<T(!new)>(s: seq<T>, p: T -> bool): (r: seq<T>)
    ensures |r| <= |s|
  {
    if s == [] then [] else Filter(s[..|s| - 1], p) + (if p(s[|s| - 1]) then [s[|s| - 1]] else [])
  }

  lemma {:induction false} InsertPermutes<T>(x: T, s: seq<T>, le: (T, T) -> bool)
    ensures multiset(Insert(x, s, le)) == multiset(s) + multiset{x}
  {
    if s != [] && !le(s[|s| - 1], x) {
      InsertPermutes(x, s[..|s| - 1], le);
      assert s == s[..|s| - 1] + [s[|s| - 1]];
    }
  }

  lemma {:induction false} SortPermutes<T>(s: seq<T>, le: (T, T) -> bool)
    ensures multiset(SortBy(s, le)) == multiset(s)
  {
    if s != [] {
      SortPermutes(s[..|s| - 1], le);
      InsertPermutes(s[|s| - 1], SortBy(s[..|s| - 1], le), le);
      assert s == s[..|s| - 1] + [s[|s| - 1]];
    }
  }

  lemma {:induction false} FilterMembers<T(!new)>(s: seq<T>, p: T -> bool, x: T)
    ensures x in Filter(s, p) <==> x in s && p(x)
  {
    if s != [] {
      FilterMembers(s[..|s| - 1], p, x);
      assert s == s[..|s| - 1] + [s[|s| - 1]];
    }
  }

  lemma SortedSnoc<T>(s: seq<T>, x: T, le: (T, T) -> bool)
    requires Sorted(s, le) && forall i :: 0 <= i < |s| ==> le(s[i], x)
    ensures Sorted(s + [x], le)
  {
  }

  lemma {:induction false} InsertSorted<T(!new)>(x: T, s: seq<T>, le: (T, T) -> bool)
    requires TotalPreorder(le) && Sorted(s, le)
    ensures Sorted(Insert(x, s, le), le)
  {
    if s == [] {
    } else if le(s[|s| - 1], x) {
      forall i | 0 <= i < |s| ensures le(s[i], x) {
        assert Chains(le, s[i], s[|s| - 1], x);
      }
      SortedSnoc(s, x, le);
    } else {
      var init, last := s[..|s| - 1], s[|s| - 1];
      var rest := Insert(x, init, le);
      InsertSorted(x, init, le);
      InsertPermutes(x, init, le);
      forall i | 0 <= i < |rest| ensures le(rest[i], last) {
        assert rest[i] in multiset(rest);
        if rest[i] == x {
          assert Comparable(le, x, last);
        } else {
          assert rest[i] in multiset(init);
          var k :| 0 <= k < |s| - 1 && s[k] == rest[i];
        }
      }
      SortedSnoc(rest, last, le);
    }
  }

  lemma {:induction false} SortBySorted<T(!new)>(s: seq<T>, le: (T, T) -> bool)
    requires TotalPreorder(le)
    ensures Sorted(SortBy(s, le), le)
  {
    if s != [] {
      SortBySorted(s[..|s| - 1], le);
      InsertSorted(s[|s| - 1], SortBy(s[..|s| - 1], le), le);
    }
  }

  /** Sorting a list already in order leaves it alone. */
  lemma {:induction false} SortBySortedInput<T(!new)>(s: seq<T>, le: (T, T) -> bool)
    requires Sorted(s, le)
    ensures SortBy(s, le) == s
  {
    if s != [] {
      SortBySortedInput(s[..|s| - 1], le);
    }
  }

  lemma {:induction false} FilterSnoc<T(!new)>(s: seq<T>, x: T, p: T -> bool)
    ensures Filter(s + [x], p) == if p(x) then Filter(s, p) + [x] else Filter(s, p)
  {
    assert (s + [x])[..|s|] == s;
  }

  lemma {:induction false} FilterConcat<T(!new)>(a: seq<T>, b: seq<T>, p: T -> bool)
    ensures Filter(a + b, p) == Filter(a, p) + Filter(b, p)
  {
    if b == [] {
      assert a + b == a;
    } else {
      var init, last := b[..|b| - 1], b[|b| - 1];
      assert a + b == (a + init) + [last];
      FilterSnoc(a + init, last, p);
      FilterConcat(a, init, p);
    }
  }

  lemma {:induction false} FilterNone<T(!new)>(s: seq<T>, p: T -> bool)
    requires forall i :: 0 <= i < |s| ==> !p(s[i])
    ensures Filter(s, p) == []
  {
    if s != [] {
      FilterNone(s[..|s| - 1], p);
    }
  }

  lemma {:induction false} FilterAll<T(!new)>(s: seq<T>, p: T -> bool)
    requires forall i :: 0 <= i < |s| ==> p(s[i])
    ensures Filter(s, p) == s
  {
    if s != [] {
      FilterAll(s[..|s| - 1], p);
    }
  }

  /** When the elements satisfying `p` are those at `a..b`, filtering is slicing. */
  lemma {:induction false} FilterIsSlice<T(!new)>(s: seq<T>, p: T -> bool, a: nat, b: nat)
    requires a <= b <= |s|
    requires forall i :: 0 <= i < |s| ==> (p(s[i]) <==> a <= i < b)
    ensures Filter(s, p) == s[a..b]
  {
    var x, y, z := s[..a], s[a..b], s[b..];
    assert s == x + y + z;
    FilterConcat(x + y, z, p);
    FilterConcat(x, y, p);
    FilterNone(x, p);
    FilterAll(y, p);
    FilterNone(z, p);
  }

  lemma {:induction false} InsertSnoc<T>(x: T, s: seq<T>, last: T, le: (T, T) -> bool)
    ensures Insert(x, s + [last], le) == if le(last, x) then s + [last, x] else Insert(x, s, le) + [last]
  {
    assert (s + [last])[..|s|] == s;
  }

  lemma {:induction false} FilteredInOrder<T(!new)>(s: seq<T>, x: T, le: (T, T) -> bool, p: T -> bool)
    requires TotalPreorder(le) && Sorted(s, le)
    requires s == [] || le(s[|s| - 1], x)
    ensures Insert(x, Filter(s, p), le) == Filter(s, p) + [x]
  {
    var kept := Filter(s, p);
    if kept != [] {
      FilterMembers(s, p, kept[|kept| - 1]);
      var k :| 0 <= k < |s| && s[k] == kept[|kept| - 1];
      assert Chains(le, s[k], s[|s| - 1], x);
    }
  }

  lemma {:induction false} InsertFiltered<T(!new)>(x: T, s: seq<T>, le: (T, T) -> bool, p: T -> bool)
    requires TotalPreorder(le) && Sorted(s, le)
    ensures Filter(Insert(x, s, le), p) == if p(x) then Insert(x, Filter(s, p), le) else Filter(s, p)
  {
    if s == [] || le(s[|s| - 1], x) {
      FilterSnoc(s, x, p);
      FilteredInOrder(s, x, le, p);
    } else {
      var init, last := s[..|s| - 1], s[|s| - 1];
      assert s == init + [last];
      InsertFiltered(x, init, le, p);
      FilterSnoc(Insert(x, init, le), last, p);
      FilterSnoc(init, last, p);
      if p(last) {
        InsertSnoc(x, Filter(init, p), last, le);
      }
    }
  }

  lemma {:induction false} SortSnoc<T>(s: seq<T>, x: T, le: (T, T) -> bool)
    ensures SortBy(s + [x], le) == Insert(x, SortBy(s, le), le)
  {
    assert (s + [x])[..|s|] == s;
  }

  /** Sorting and filtering commute. With a predicate that picks out one key this is stability. */
  lemma {:induction false} SortFiltered<T(!new)>(s: seq<T>, le: (T, T) -> bool, p: T -> bool)
    requires TotalPreorder(le)
    ensures Filter(SortBy(s, le), p) == SortBy(Filter(s, p), le)
  {
    if s == [] {
      assert SortBy(s, le) == [] && Filter(s, p) == [];
    } else {
      var init, last := s[..|s| - 1], s[|s| - 1];
      assert s == init + [last];
      SortFiltered(init, le, p);
      SortFilteredSnoc(init, last, le, p);
    }
  }

  lemma {:induction false} SortFilteredSnoc<T(!new)>(s: seq<T>, x: T, le: (T, T) -> bool, p: T -> bool)
    requires TotalPreorder(le)
    requires Filter(SortBy(s, le), p) == SortBy(Filter(s, p), le)
    ensures Filter(SortBy(s + [x], le), p) == SortBy(Filter(s + [x], p), le)
  {
    SortBySorted(s, le);
    SortSnoc(s, x, le);
    InsertFiltered(x, SortBy(s, le), le, p);
    FilterSnoc(s, x, p);
    if p(x) {
      SortSnoc(Filter(s, p), x, le);
    }
  }

  lemma {:induction false} InsertSums<T>(x: T, s: seq<T>, le: (T, T) -> bool, f: T -> nat)
    ensures SumOver(Insert(x, s, le), f) == SumOver(s, f) + f(x)
  {
    if s == [] || le(s[|s| - 1], x) {
      SumOverSnoc(s, x, f);
    } else {
      var init, last := s[..|s| - 1], s[|s| - 1];
      InsertSums(x, init, le, f);
      SumOverSnoc(Insert(x, init, le), last, f);
    }
  }

  /** Sorting conserves every total. */
  lemma {:induction false} SortSums<T>(s: seq<T>, le: (T, T) -> bool, f: T -> nat)
    ensures SumOver(SortBy(s, le), f) == SumOver(s, f)
  {
    if s != [] {
      SortSums(s[..|s| - 1], le, f);
      InsertSums(s[|s| - 1], SortBy(s[..|s| - 1], le), le, f);
    }
  }
}
