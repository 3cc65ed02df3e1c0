/**
 * Row-selection helpers shared by every query of the model: an equality filter
 * (`.eq(column, value)`) and PostgREST's `.single()`.
 */
module Seqs {
  import opened Wrappers

  /** The elements of `s` that satisfy `p`, in their original order. */
  function Filter<T(!new)>(s: seq<T>, p: T -> bool): (r: seq<T>)
    ensures |r| <= |s|
    ensures forall x :: x in r <==> x in s && p(x)
  {
    if s == [] then [] else (if p(s[0]) then [s[0]] else []) + Filter(s[1..], p)
  }

  /** Each value is kept as many times as it occurs when it satisfies `p`, and never otherwise. */
  lemma {:induction false} FilterCount<T(!new)>(s: seq<T>, p: T -> bool)
    ensures forall x :: multiset(Filter(s, p))[x] == if p(x) then multiset(s)[x] else 0
  {
    if s != [] {
      FilterCount(s[1..], p);
      assert s == [s[0]] + s[1..];
    }
  }

  /** Filtering distributes over concatenation, so the kept rows stay in their original order. */
  lemma {:induction false} FilterAppend<T(!new)>(a: seq<T>, b: seq<T>, p: T -> bool)
    ensures Filter(a + b, p) == Filter(a, p) + Filter(b, p)
  {
    if a != [] {
      FilterAppend(a[1..], b, p);
      assert (a + b)[1..] == a[1..] + b;
    } else {
      assert a + b == b;
    }
  }

  /** Appending a row appends it to the result exactly when it satisfies `p`. */
  lemma FilterSnoc<T(!new)>(s: seq<T>, x: T, p: T -> bool)
    ensures Filter(s + [x], p) == Filter(s, p) + (if p(x) then [x] else [])
  {
    FilterAppend(s, [x], p);
    assert Filter([x], p) == (if p(x) then [x] else []) + Filter([], p);
  }

  /**
   * `.single()`: the row when the query matched exactly one row; with none or
   * with several, PostgREST reports an error and the caller sees no data.
   */
  function Single<T>(rows: seq<T>): (r: Option<T>)
    ensures r.Some? ==> |rows| == 1 && r.value in rows
  {
    if |rows| == 1 then Some(rows[0]) else None
  }

  /** At most one position of `s` satisfies `p` (a unique key restricted to one value). */
  ghost predicate AtMostOne<T>(s: seq<T>, p: T -> bool)
  {
    forall i, j :: 0 <= i < |s| && 0 <= j < |s| && p(s[i]) && p(s[j]) ==> i == j
  }

  lemma {:induction false} FilterNone<T(!new)>(s: seq<T>, p: T -> bool)
    requires forall x :: x in s ==> !p(x)
    ensures Filter(s, p) == []
  {
    if s != [] {
      FilterNone(s[1..], p);
    }
  }

  lemma {:induction false} FilterAll<T(!new)>(s: seq<T>, p: T -> bool)
    requires forall x :: x in s ==> p(x)
    ensures Filter(s, p) == s
  {
    if s != [] {
      FilterAll(s[1..], p);
    }
  }

  lemma {:induction false} FilterAtMostOne<T(!new)>(s: seq<T>, p: T -> bool)
    requires AtMostOne(s, p)
    ensures |Filter(s, p)| <= 1
  {
    if s != [] {
      if p(s[0]) {
        forall x | x in s[1..] ensures !p(x) {
          var k :| 1 <= k < |s| && s[k] == x;
        }
        FilterNone(s[1..], p);
      } else {
        assert AtMostOne(s[1..], p) by {
          forall i, j | 0 <= i < |s| - 1 && 0 <= j < |s| - 1 && p(s[1..][i]) && p(s[1..][j])
            ensures i == j
          {
            assert s[1..][i] == s[i + 1] && s[1..][j] == s[j + 1];
          }
        }
        FilterAtMostOne(s[1..], p);
      }
    }
  }

  /**
   * Under a unique key, `.single()` over an equality filter finds exactly the row
   * that has the key, and no data exactly when no row has it.
   */
  lemma SingleOfUnique<T(!new)>(s: seq<T>, p: T -> bool)
    requires AtMostOne(s, p)
    ensures forall x :: Single(Filter(s, p)) == Some(x) <==> x in s && p(x)
    ensures Single(Filter(s, p)) == None <==> forall x :: x in s ==> !p(x)
  {
    var r := Filter(s, p);
    FilterAtMostOne(s, p);
    if r != [] {
      assert r[0] in r;
      assert |r| == 1;
      forall x | x in s && p(x) ensures x == r[0] {
        assert x in r;
      }
    }
  }
}
