/** A stable comparison sort over an abstract comparator, as Array.prototype.sort behaves. */
module Sorting {

  /** Every two values are comparable one way or the other (so `le` is also reflexive). */
  ghost predicate Total<T(!new)>(le: (T, T) -> bool) {
    forall a, b :: le(a, b) || le(b, a)
  }

  ghost predicate Transitive<T(!new)>(le: (T, T) -> bool) {
    forall a, b, c :: le(a, b) && le(b, c) ==> le(a, c)
  }

  ghost predicate TotalPreorder<T(!new)>(le: (T, T) -> bool) {
    Total(le) && Transitive(le)
  }

  /** Totality restricted to the elements of one sequence. */
  ghost predicate TotalOn<T>(le: (T, T) -> bool, s: seq<T>) {
    forall a, b | a in s && b in s :: le(a, b) || le(b, a)
  }

  ghost predicate TransitiveOn<T>(le: (T, T) -> bool, s: seq<T>) {
    forall a, b, c | a in s && b in s && c in s :: le(a, b) && le(b, c) ==> le(a, c)
  }

  /** Each element is at most its successor. */
  predicate Sorted<T>(s: seq<T>, le: (T, T) -> bool) {
    forall i :: 0 < i < |s| ==> le(s[i - 1], s[i])
  }

  /** Places `x` before the first element it does not exceed. */
  function Insert<T(==)>(x: T, s: seq<T>, le: (T, T) -> bool): (r: seq<T>)
    ensures multiset(r) == multiset(s) + multiset{x}
    ensures |r| == |s| + 1
    ensures r[0] == x || (|s| > 0 && r[0] == s[0])
    decreases |s|
  {
    if |s| == 0 || le(x, s[0]) then [x] + s
    else
      assert s == [s[0]] + s[1..];
      [s[0]] + Insert(x, s[1..], le)
  }

  /** Insertion sort; an earlier element goes before the later ones it ties with. */
  function SortBy<T(==)>(s: seq<T>, le: (T, T) -> bool): (r: seq<T>)
    ensures multiset(r) == multiset(s)
    ensures |r| == |s|
    decreases |s|
  {
    if |s| == 0 then []
    else
      assert s == [s[0]] + s[1..];
      Insert(s[0], SortBy(s[1..], le), le)
  }

  lemma {:induction false} InsertSorted<T>(x: T, s: seq<T>, le: (T, T) -> bool)
    requires Sorted(s, le)
    requires TotalOn(le, s + [x])
    ensures Sorted(Insert(x, s, le), le)
    decreases |s|
  {
    if |s| == 0 || le(x, s[0]) {
    } else {
      var tail := s[1..];
      forall a, b | a in tail + [x] && b in tail + [x]
        ensures le(a, b) || le(b, a)
      {
        assert a in s + [x] && b in s + [x];
      }
      InsertSorted(x, tail, le);
      var rest := Insert(x, tail, le);
      assert s[0] in s + [x] && x in s + [x];
      if rest[0] == x {
        assert le(s[0], rest[0]);
      } else {
        assert le(s[0], s[1]);
      }
    }
  }

  /** The sort's output is ordered whenever the comparator is total on its input. */
  lemma {:induction false} SortBySorted<T>(s: seq<T>, le: (T, T) -> bool)
    requires TotalOn(le, s)
    ensures Sorted(SortBy(s, le), le)
    decreases |s|
  {
    if |s| > 0 {
      var tail := s[1..];
      assert forall a | a in tail :: a in s;
      SortBySorted(tail, le);
      var sorted := SortBy(tail, le);
      forall a, b | a in sorted + [s[0]] && b in sorted + [s[0]]
        ensures le(a, b) || le(b, a)
      {
        assert a in multiset(sorted) || a == s[0];
        assert b in multiset(sorted) || b == s[0];
        assert a in s && b in s;
      }
      InsertSorted(s[0], sorted, le);
    }
  }

  /** With transitivity, an adjacently ordered sequence is ordered pairwise. */
  lemma {:induction false} SortedPairwise<T>(s: seq<T>, le: (T, T) -> bool)
    requires Sorted(s, le)
    requires TransitiveOn(le, s)
    ensures forall i, j :: 0 <= i < j < |s| ==> le(s[i], s[j])
    decreases |s|
  {
    if |s| > 1 {
      var tail := s[1..];
      assert forall a | a in tail :: a in s;
      assert Sorted(tail, le) by {
        assert forall i :: 0 < i < |tail| ==> tail[i - 1] == s[i] && tail[i] == s[i + 1];
      }
      SortedPairwise(tail, le);
      forall i, j | 0 <= i < j < |s|
        ensures le(s[i], s[j])
      {
        if i > 0 {
          assert s[i] == tail[i - 1] && s[j] == tail[j - 1];
        } else if j > 1 {
          assert le(s[0], s[1]);
          assert le(tail[0], tail[j - 1]);
          assert s[0] in s && s[1] in s && s[j] in s;
        }
      }
    }
  }

  /** Sorting a list that is already in order gives it back unchanged. */
  lemma {:induction false} SortBySortedInput<T>(s: seq<T>, le: (T, T) -> bool)
    requires Sorted(s, le)
    ensures SortBy(s, le) == s
    decreases |s|
  {
    if |s| > 0 {
      var tail := s[1..];
      assert Sorted(tail, le) by {
        assert forall i :: 0 < i < |tail| ==> tail[i - 1] == s[i] && tail[i] == s[i + 1];
      }
      SortBySortedInput(tail, le);
      assert s == [s[0]] + tail;
    }
  }

  /** `a` and `b` tie: each is at most the other. */
  ghost predicate Ties<T>(le: (T, T) -> bool, a: T, b: T) {
    le(a, b) && le(b, a)
  }

  /** The elements of `s` that tie with `k`, in their order in `s`. */
  ghost function TiedWith<T>(s: seq<T>, le: (T, T) -> bool, k: T): seq<T>
    decreases |s|
  {
    if |s| == 0 then []
    else if Ties(le, k, s[0]) then [s[0]] + TiedWith(s[1..], le, k)
    else TiedWith(s[1..], le, k)
  }

  /** Inserting `x` keeps the order within every class of tied elements: `x`
      lands before the first element it does not exceed, so never after one it
      ties with. */
  lemma {:induction false} InsertKeepsTies<T>(x: T, t: seq<T>, le: (T, T) -> bool, k: T, pool: seq<T>)
    requires x in pool && k in pool && (forall y | y in t :: y in pool)
    requires TransitiveOn(le, pool)
    ensures TiedWith(Insert(x, t, le), le, k) == TiedWith([x] + t, le, k)
    decreases |t|
  {
    if |t| == 0 || le(x, t[0]) {
    } else {
      var rest := t[1..];
      assert t == [t[0]] + rest;
      assert t[0] in t;
      assert forall y | y in rest :: y in t;
      InsertKeepsTies(x, rest, le, k, pool);
      if Ties(le, k, x) {
        TieBlocks(le, k, x, t[0], pool);
      }
      InsertKeepsTiesStep(x, t, le, k);
    }
  }

  /** The step of the above past a first element that `x` exceeds. */
  lemma InsertKeepsTiesStep<T>(x: T, t: seq<T>, le: (T, T) -> bool, k: T)
    requires |t| > 0 && !le(x, t[0])
    requires Ties(le, k, x) ==> !Ties(le, k, t[0])
    requires TiedWith(Insert(x, t[1..], le), le, k) == TiedWith([x] + t[1..], le, k)
    ensures TiedWith(Insert(x, t, le), le, k) == TiedWith([x] + t, le, k)
  {
    var rest := t[1..];
    var ins := Insert(x, rest, le);
    assert Insert(x, t, le) == [t[0]] + ins;
    assert ([t[0]] + ins)[1..] == ins;
    assert ([x] + t)[1..] == t;
    assert ([x] + rest)[1..] == rest;
  }

  /** An element that ties with `k` and does not come at most `y` means `y` does
      not tie with `k`. */
  lemma TieBlocks<T>(le: (T, T) -> bool, k: T, x: T, y: T, pool: seq<T>)
    requires x in pool && y in pool && k in pool
    requires TransitiveOn(le, pool)
    requires Ties(le, k, x) && !le(x, y)
    ensures !Ties(le, k, y)
  {
  }

  /** Stability: within every class of elements that tie with an element `k` of
      the input, the sort keeps the input order. */
  lemma SortByStable<T>(s: seq<T>, le: (T, T) -> bool, k: T)
    requires k in s
    requires TransitiveOn(le, s)
    ensures TiedWith(SortBy(s, le), le, k) == TiedWith(s, le, k)
  {
    SortByStableIn(s, le, k, s);
  }

  lemma {:induction false} SortByStableIn<T>(s: seq<T>, le: (T, T) -> bool, k: T, pool: seq<T>)
    requires k in pool && (forall y | y in s :: y in pool)
    requires TransitiveOn(le, pool)
    ensures TiedWith(SortBy(s, le), le, k) == TiedWith(s, le, k)
    decreases |s|
  {
    if |s| > 0 {
      var tail := s[1..];
      assert s[0] in s;
      assert forall y | y in tail :: y in s;
      SortByStableIn(tail, le, k, pool);
      var sorted := SortBy(tail, le);
      forall y | y in sorted
        ensures y in pool
      {
        assert y in multiset(sorted);
        assert y in tail;
      }
      InsertKeepsTies(s[0], sorted, le, k, pool);
      assert ([s[0]] + sorted)[1..] == sorted;
    }
  }
}
