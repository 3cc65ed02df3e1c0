/**
 * The bucketing `reduce` that `getShopBySlug` and
 * `getOfficialBooksGroupedByCategory` both run over their book lists: each
 * element is pushed onto the list stored under its key, the list being created
 * the first time the key is met.
 */
module Grouping {

  /** `if (!acc[k]) acc[k] = []; acc[k].push(x);` */
  function Push<T>(acc: map<string, seq<T>>, k: string, x: T): (r: map<string, seq<T>>)
    ensures r.Keys == acc.Keys + {k}
    ensures r[k] == (if k in acc then acc[k] else []) + [x]
    ensures forall j :: j in acc && j != k ==> r[j] == acc[j]
  {
    acc[k := (if k in acc then acc[k] else []) + [x]]
  }

  /** The reduce itself: fold `Push` over `xs` from left to right, starting from `{}`. */
  function GroupBy<T>(xs: seq<T>, key: T -> string): map<string, seq<T>>
  {
    if xs == [] then map[] else
    var n := |xs| - 1;
    Push(GroupBy(xs[..n], key), key(xs[n]), xs[n])
  }

  /** The positions of `xs` whose element has key `k`, in increasing order. */
  function Positions<T>(xs: seq<T>, key: T -> string, k: string): (ps: seq<nat>)
    ensures forall j :: 0 <= j < |ps| ==> ps[j] < |xs| && key(xs[ps[j]]) == k
    ensures forall j, l :: 0 <= j < l < |ps| ==> ps[j] < ps[l]
    ensures forall i :: 0 <= i < |xs| && key(xs[i]) == k ==> i in ps
  {
    if xs == [] then [] else
    var n := |xs| - 1;
    var ps := Positions(xs[..n], key, k);
    if key(xs[n]) == k then ps + [n] else ps
  }

  /** The elements of `xs` at the positions `ps`. */
  function Select<T>(xs: seq<T>, ps: seq<nat>): (r: seq<T>)
    requires forall j :: 0 <= j < |ps| ==> ps[j] < |xs|
    ensures |r| == |ps|
    ensures forall j :: 0 <= j < |ps| ==> r[j] == xs[ps[j]]
  {
    seq(|ps|, j requires 0 <= j < |ps| => xs[ps[j]])
  }

  /** The keys of the grouping are exactly the keys that occur in `xs`. */
  lemma {:induction false} GroupByKeys<T>(xs: seq<T>, key: T -> string)
    ensures forall k :: k in GroupBy(xs, key) <==> exists i :: 0 <= i < |xs| && key(xs[i]) == k
  {
    if xs != [] {
      var n := |xs| - 1;
      var pre := xs[..n];
      GroupByKeys(pre, key);
      var g := GroupBy(xs, key);
      assert g.Keys == GroupBy(pre, key).Keys + {key(xs[n])};
      forall k ensures k in g <==> exists i :: 0 <= i < |xs| && key(xs[i]) == k {
        if k in GroupBy(pre, key) {
          var i :| 0 <= i < |pre| && key(pre[i]) == k;
          assert xs[i] == pre[i];
        }
        if exists i :: 0 <= i < |xs| && key(xs[i]) == k {
          var i :| 0 <= i < |xs| && key(xs[i]) == k;
          if i < n {
            assert pre[i] == xs[i];
          }
        }
      }
    }
  }

  /**
   * Partition and order: the bucket of a key holds the elements of `xs` with
   * that key, in the order they have in `xs`, and nothing else.
   */
  lemma {:induction false} GroupByBuckets<T>(xs: seq<T>, key: T -> string)
    ensures forall k :: k in GroupBy(xs, key) <==> exists i :: 0 <= i < |xs| && key(xs[i]) == k
    ensures forall k :: k in GroupBy(xs, key) ==> GroupBy(xs, key)[k] == Select(xs, Positions(xs, key, k))
  {
    GroupByKeys(xs, key);
    if xs != [] {
      var n := |xs| - 1;
      var pre := xs[..n];
      GroupByBuckets(pre, key);
      var g := GroupBy(xs, key);
      forall k | k in g ensures g[k] == Select(xs, Positions(xs, key, k)) {
        BucketStep(xs, key, k);
      }
    }
  }

  /** One step of the fold, for one key. */
  lemma BucketStep<T>(xs: seq<T>, key: T -> string, k: string)
    requires xs != [] && k in GroupBy(xs, key)
    requires var pre := xs[..|xs| - 1];
      (k in GroupBy(pre, key) <==> exists i :: 0 <= i < |pre| && key(pre[i]) == k)
      && (k in GroupBy(pre, key) ==> GroupBy(pre, key)[k] == Select(pre, Positions(pre, key, k)))
    ensures GroupBy(xs, key)[k] == Select(xs, Positions(xs, key, k))
  {
    var n := |xs| - 1;
    var pre := xs[..n];
    var g := GroupBy(pre, key);
    var ps := Positions(pre, key, k);
    assert GroupBy(xs, key) == Push(g, key(xs[n]), xs[n]);
    SelectPrefix(xs, n, ps);
    assert ps == [] || key(pre[ps[0]]) == k;
    if k == key(xs[n]) {
      assert Positions(xs, key, k) == ps + [n];
      SelectAppend(xs, ps, n);
    } else {
      assert Positions(xs, key, k) == ps;
    }
  }

  lemma SelectPrefix<T>(xs: seq<T>, n: nat, ps: seq<nat>)
    requires n <= |xs| && forall j :: 0 <= j < |ps| ==> ps[j] < n
    ensures Select(xs[..n], ps) == Select(xs, ps)
  {
    var a := Select(xs[..n], ps);
    var b := Select(xs, ps);
    forall j | 0 <= j < |ps| ensures a[j] == b[j] {
      assert xs[..n][ps[j]] == xs[ps[j]];
    }
  }

  lemma SelectAppend<T>(xs: seq<T>, ps: seq<nat>, n: nat)
    requires n < |xs| && forall j :: 0 <= j < |ps| ==> ps[j] < |xs|
    ensures Select(xs, ps + [n]) == Select(xs, ps) + [xs[n]]
  {
    var a := Select(xs, ps + [n]);
    var b := Select(xs, ps) + [xs[n]];
    forall j | 0 <= j < |ps| + 1 ensures a[j] == b[j] {
      if j < |ps| {
        assert (ps + [n])[j] == ps[j];
      }
    }
  }

  /** The empty list, and only it, groups to the empty object. */
  lemma GroupByEmpty<T>(xs: seq<T>, key: T -> string)
    ensures GroupBy(xs, key) == map[] <==> xs == []
  {
    if xs != [] {
      GroupByBuckets(xs, key);
      assert key(xs[0]) in GroupBy(xs, key);
    }
  }

  /** Each element is in the bucket of its own key. */
  lemma InOwnBucket<T>(xs: seq<T>, key: T -> string, i: nat)
    requires i < |xs|
    ensures key(xs[i]) in GroupBy(xs, key) && xs[i] in GroupBy(xs, key)[key(xs[i])]
  {
    GroupByBuckets(xs, key);
    var ps := Positions(xs, key, key(xs[i]));
    var j :| 0 <= j < |ps| && ps[j] == i;
    assert Select(xs, ps)[j] == xs[i];
  }

  /** Every element of a bucket comes from `xs` and carries the bucket's key. */
  lemma BucketMembers<T>(xs: seq<T>, key: T -> string, k: string)
    requires k in GroupBy(xs, key)
    ensures forall x :: x in GroupBy(xs, key)[k] ==> x in xs && key(x) == k
  {
    GroupByBuckets(xs, key);
  }

  /** The sum of the bucket sizes of the keys `ks`. */
  function SizeOver<T>(g: map<string, seq<T>>, ks: seq<string>): nat
  {
    if ks == [] then 0 else (if ks[0] in g then |g[ks[0]]| else 0) + SizeOver(g, ks[1..])
  }

  /** The keys of `xs` without repetitions, in the order they are first met. */
  function KeyOrder<T>(xs: seq<T>, key: T -> string): (ks: seq<string>)
    ensures forall a, b :: 0 <= a < b < |ks| ==> ks[a] != ks[b]
    ensures forall k :: k in ks <==> exists i :: 0 <= i < |xs| && key(xs[i]) == k
  {
    if xs == [] then [] else
    var n := |xs| - 1;
    var ks := KeyOrder(xs[..n], key);
    if key(xs[n]) in ks then ks else ks + [key(xs[n])]
  }

  /** Pushing one element onto the bucket of `k` adds one to the total over keys that list `k` once. */
  lemma {:induction false} SizeOverPush<T>(g: map<string, seq<T>>, ks: seq<string>, k: string, x: T)
    requires forall a, b :: 0 <= a < b < |ks| ==> ks[a] != ks[b]
    ensures SizeOver(Push(g, k, x), ks) == SizeOver(g, ks) + (if k in ks then 1 else 0)
  {
    if ks != [] {
      SizeOverPush(g, ks[1..], k, x);
      assert k in ks <==> k == ks[0] || k in ks[1..];
      if k == ks[0] {
        assert k !in ks[1..];
      }
    }
  }

  /** Adding a key with no bucket does not change the total. */
  lemma {:induction false} SizeOverAbsent<T>(g: map<string, seq<T>>, ks: seq<string>, k: string)
    requires k !in g
    ensures SizeOver(g, ks + [k]) == SizeOver(g, ks)
  {
    if ks != [] {
      assert (ks + [k])[1..] == ks[1..] + [k];
      SizeOverAbsent(g, ks[1..], k);
    }
  }

  /** The buckets, taken over the keys in the order they were met, hold `|xs|` elements in all. */
  lemma {:induction false} BucketSizesSum<T>(xs: seq<T>, key: T -> string)
    ensures SizeOver(GroupBy(xs, key), KeyOrder(xs, key)) == |xs|
  {
    if xs != [] {
      var n := |xs| - 1;
      var pre := xs[..n];
      BucketSizesSum(pre, key);
      var ks := KeyOrder(pre, key);
      var g := GroupBy(pre, key);
      SizeOverPush(g, ks, key(xs[n]), xs[n]);
      if key(xs[n]) !in ks {
        GroupByBuckets(pre, key);
        SizeOverAbsent(g, ks, key(xs[n]));
        SizeOverPush(g, ks + [key(xs[n])], key(xs[n]), xs[n]);
        assert forall a, b :: 0 <= a < b < |ks + [key(xs[n])]| ==> (ks + [key(xs[n])])[a] != (ks + [key(xs[n])])[b];
      }
    }
  }

  /**
   * The reduce as the source runs it: a loop that mutates the accumulator,
   * creating a bucket on the first element with its key.
   */
  method GroupInto<T>(xs: seq<T>, key: T -> string) returns (acc: map<string, seq<T>>)
    ensures acc == GroupBy(xs, key)
  {
    acc := map[];
    for i := 0 to |xs|
      invariant acc == GroupBy(xs[..i], key)
    {
      var k := key(xs[i]);
      if k !in acc {
        acc := acc[k := []];
      }
      acc := acc[k := acc[k] + [xs[i]]];
      assert xs[..i + 1][..i] == xs[..i];
    }
    assert xs[..|xs|] == xs;
  }
}
