/**
 * The list operations the widget's state updates are built from: `map`,
 * a conditional `map` (`items.map(it => cond ? f(it) : it)`), `filter` by a
 * key, and `slice(0, n)`.
 */
module Seqs {

  function Min(a: nat, b: nat): nat { if a <= b then a else b }

  /** No two positions hold the same value. */
  predicate Distinct<T(==)>(s: seq<T>)
  {
    forall i, j :: 0 <= i < j < |s| ==> s[i] != s[j]
  }

  function Map<T, U>(s: seq<T>, f: T -> U): (r: seq<U>)
    ensures |r| == |s|
    ensures forall i :: 0 <= i < |s| ==> r[i] == f(s[i])
  {
    if s == [] then [] else [f(s[0])] + Map(s[1..], f)
  }

  /** `s.map(x => p(x) ? f(x) : x)`. */
  function MapIf<T>(s: seq<T>, p: T -> bool, f: T -> T): (r: seq<T>)
    ensures |r| == |s|
    ensures forall i :: 0 <= i < |s| ==> r[i] == (if p(s[i]) then f(s[i]) else s[i])
  {
    if s == [] then [] else [if p(s[0]) then f(s[0]) else s[0]] + MapIf(s[1..], p, f)
  }

  /** `s.slice(0, n)` for a non-negative `n`. */
  function Prefix<T>(s: seq<T>, n: nat): (r: seq<T>)
    ensures r <= s
    ensures |r| == Min(n, |s|)
  {
    s[..Min(n, |s|)]
  }

  /** `s.filter(x => key(x) !== k)`. */
  function Without<T, K(==)>(s: seq<T>, key: T -> K, k: K): (r: seq<T>)
    ensures |r| <= |s|
    ensures forall i :: 0 <= i < |r| ==> key(r[i]) != k
  {
    if s == [] then []
    else (if key(s[0]) == k then [] else [s[0]]) + Without(s[1..], key, k)
  }

  lemma {:induction false} MapAppend<T, U>(a: seq<T>, b: seq<T>, f: T -> U)
    ensures Map(a + b, f) == Map(a, f) + Map(b, f)
  {
    var l, r := Map(a + b, f), Map(a, f) + Map(b, f);
    assert |l| == |r|;
    forall i | 0 <= i < |l| ensures l[i] == r[i] {
      if i < |a| { assert (a + b)[i] == a[i]; } else { assert (a + b)[i] == b[i - |a|]; }
    }
  }

  lemma MapPrefix<T, U>(s: seq<T>, f: T -> U, n: nat)
    requires n <= |s|
    ensures Map(s[..n], f) == Map(s, f)[..n]
  {
  }

  /** The image of a non-empty sequence: the image of all but the last, then the last's. */
  lemma {:induction false} MapLast<T, U>(s: seq<T>, f: T -> U)
    requires s != []
    ensures Map(s, f) == Map(s[..|s| - 1], f) + [f(s[|s| - 1])]
  {
    MapPrefix(s, f, |s| - 1);
    assert Map(s, f) == Map(s, f)[..|s| - 1] + [Map(s, f)[|s| - 1]];
  }

  /** One more element of a prefix, one more element of its image. */
  lemma {:induction false} MapPrefixStep<T, U>(s: seq<T>, f: T -> U, i: nat)
    requires i < |s|
    ensures Map(s[..i + 1], f) == Map(s[..i], f) + [f(s[i])]
  {
    assert s[..i + 1] == s[..i] + [s[i]];
    MapAppend(s[..i], [s[i]], f);
  }

  lemma MapSuffix<T, U>(s: seq<T>, f: T -> U, n: nat)
    requires n <= |s|
    ensures Map(s[n..], f) == Map(s, f)[n..]
  {
  }

  lemma {:induction false} WithoutAppend<T, K>(a: seq<T>, b: seq<T>, key: T -> K, k: K)
    ensures Without(a + b, key, k) == Without(a, key, k) + Without(b, key, k)
  {
    if a == [] {
      assert a + b == b;
    } else {
      var head := if key(a[0]) == k then [] else [a[0]];
      assert (a + b)[0] == a[0];
      assert (a + b)[1..] == a[1..] + b;
      WithoutAppend(a[1..], b, key, k);
      assert Without(a + b, key, k) == head + Without(a[1..] + b, key, k);
      assert Without(a, key, k) == head + Without(a[1..], key, k);
    }
  }

  /** Filtering out a key that no element carries keeps everything. */
  lemma {:induction false} WithoutAbsent<T, K>(s: seq<T>, key: T -> K, k: K)
    requires k !in Map(s, key)
    ensures Without(s, key, k) == s
  {
    if s != [] {
      assert key(s[0]) != k && k !in Map(s[1..], key) by {
        assert Map(s, key)[0] == key(s[0]);
        MapSuffix(s, key, 1);
      }
      WithoutAbsent(s[1..], key, k);
      assert s == [s[0]] + s[1..];
    }
  }

  /** The keys of a tail, seen from the whole sequence. */
  lemma {:induction false} MapTail<T, K>(s: seq<T>, key: T -> K)
    requires s != []
    ensures Map(s[1..], key) == Map(s, key)[1..]
    ensures Distinct(Map(s, key)) ==> Distinct(Map(s[1..], key)) && key(s[0]) !in Map(s[1..], key)
  {
    assert Map(s, key)[0] == key(s[0]);
  }

  /**
   * When keys are distinct, filtering out the key held at position `i` drops
   * exactly that element and keeps the others in their order.
   */
  lemma {:induction false} WithoutAt<T, K>(s: seq<T>, key: T -> K, i: nat)
    requires Distinct(Map(s, key)) && i < |s|
    ensures Without(s, key, key(s[i])) == s[..i] + s[i + 1..]
  {
    assert key(s[i]) !in Map(s[..i], key) && key(s[i]) !in Map(s[i + 1..], key) by {
      MapPrefix(s, key, i);
      MapSuffix(s, key, i + 1);
      DistinctAt(Map(s, key), i);
    }
    WithoutLone(s, key, i);
  }

  /** Filtering out a key held at position `i` and nowhere else drops exactly that element. */
  lemma {:induction false} WithoutLone<T, K>(s: seq<T>, key: T -> K, i: nat)
    requires i < |s|
    requires key(s[i]) !in Map(s[..i], key) && key(s[i]) !in Map(s[i + 1..], key)
    ensures Without(s, key, key(s[i])) == s[..i] + s[i + 1..]
  {
    var a, b, k := s[..i], s[i + 1..], key(s[i]);
    SplitAt(s, i);
    WithoutAbsent(a, key, k);
    WithoutAbsent(b, key, k);
    WithoutAppend(a + [s[i]], b, key, k);
    WithoutAppend(a, [s[i]], key, k);
    assert Without([s[i]], key, k) == [];
    assert a + [] == a;
  }

  lemma {:induction false} SplitAt<T>(s: seq<T>, i: nat)
    requires i < |s|
    ensures s == s[..i] + [s[i]] + s[i + 1..]
  {
  }

  /** In a sequence without repeats, an element occurs neither before nor after its own position. */
  lemma {:induction false} DistinctAt<T>(m: seq<T>, i: nat)
    requires Distinct(m) && i < |m|
    ensures m[i] !in m[..i] && m[i] !in m[i + 1..]
  {
    forall j | 0 <= j < i ensures m[..i][j] != m[i] {
    }
    forall j | i < j < |m| ensures m[j] != m[i] {
    }
  }

  /**
   * Filtering keeps exactly the elements whose key differs: each element of
   * the result is one of the input, and each input element with another key
   * is in the result.
   */
  lemma {:induction false} WithoutMembers<T, K>(s: seq<T>, key: T -> K, k: K)
    ensures forall i :: 0 <= i < |Without(s, key, k)| ==> Without(s, key, k)[i] in s
    ensures forall i :: 0 <= i < |s| && key(s[i]) != k ==> s[i] in Without(s, key, k)
  {
    if s != [] {
      WithoutMembers(s[1..], key, k);
      var w := Without(s[1..], key, k);
      var r := Without(s, key, k);
      forall i | 0 <= i < |r| ensures r[i] in s {
        if key(s[0]) != k && i == 0 {
        } else {
          var j := if key(s[0]) != k then i - 1 else i;
          assert r[i] == w[j];
          assert w[j] in s[1..];
        }
      }
      forall i | 0 <= i < |s| && key(s[i]) != k ensures s[i] in r {
        if i > 0 {
          assert s[i] == s[1..][i - 1];
        }
      }
    }
  }

  /** The values `other` takes on a filtered sequence are values it takes on the input. */
  lemma {:induction false} WithoutMapSubset<T, K, U>(s: seq<T>, key: T -> K, k: K, other: T -> U)
    ensures forall x | x in Map(Without(s, key, k), other) :: x in Map(s, other)
  {
    if s != [] {
      WithoutMapSubset(s[1..], key, k, other);
      MapTail(s, other);
      MapAppend(if key(s[0]) == k then [] else [s[0]], Without(s[1..], key, k), other);
      assert Map(s, other)[0] == other(s[0]);
    }
  }

  /** Prepending a value the rest lacks keeps the values distinct. */
  lemma {:induction false} DistinctCons<T>(a: T, b: seq<T>)
    requires a !in b && Distinct(b)
    ensures Distinct([a] + b)
  {
    forall i, j | 0 <= i < j < |[a] + b| ensures ([a] + b)[i] != ([a] + b)[j] {
      assert ([a] + b)[j] == b[j - 1];
      if i > 0 {
        assert ([a] + b)[i] == b[i - 1];
      }
    }
  }

  /** Filtering by one key keeps the values of any other key distinct. */
  lemma {:induction false} WithoutKeepsDistinctBy<T, K, U>(s: seq<T>, key: T -> K, k: K, other: T -> U)
    ensures Distinct(Map(s, other)) ==> Distinct(Map(Without(s, key, k), other))
  {
    if s != [] && Distinct(Map(s, other)) {
      var w := Without(s[1..], key, k);
      MapTail(s, other);
      WithoutKeepsDistinctBy(s[1..], key, k, other);
      if key(s[0]) != k {
        WithoutMapSubset(s[1..], key, k, other);
        MapAppend([s[0]], w, other);
        DistinctCons(other(s[0]), Map(w, other));
        assert Map([s[0]], other) == [other(s[0])];
      }
    }
  }

  /** Filtering by a key keeps the remaining keys distinct. */
  lemma {:induction false} WithoutKeepsDistinct<T, K>(s: seq<T>, key: T -> K, k: K)
    ensures Distinct(Map(s, key)) ==> Distinct(Map(Without(s, key, k), key))
  {
    WithoutKeepsDistinctBy(s, key, k, key);
  }

  /** A prefix of a sequence with distinct values has distinct values. */
  lemma {:induction false} PrefixKeepsDistinct<T, U>(s: seq<T>, key: T -> U, n: nat)
    ensures Distinct(Map(s, key)) ==> Distinct(Map(Prefix(s, n), key))
  {
    var p := Prefix(s, n);
    forall i | 0 <= i < |p| ensures Map(p, key)[i] == Map(s, key)[i] { }
  }

  /** Two sequences with distinct values and no value in common concatenate to one. */
  lemma {:induction false} DistinctConcat<T>(a: seq<T>, b: seq<T>)
    requires Distinct(a) && Distinct(b)
    requires forall j :: 0 <= j < |b| ==> b[j] !in a
    ensures Distinct(a + b)
  {
    forall i, j | 0 <= i < j < |a + b| ensures (a + b)[i] != (a + b)[j] {
      if i >= |a| {
        assert (a + b)[i] == b[i - |a|] && (a + b)[j] == b[j - |a|];
      } else if j >= |a| {
        assert (a + b)[i] == a[i] && (a + b)[j] == b[j - |a|];
      }
    }
  }
}
