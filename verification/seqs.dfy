/** Sequence queries used by the services: the counterparts of LINQ's
    `Where`, `Count`, `Any`, `FirstOrDefault`/`FindAsync` and `Take`.
    Every query selects by a key function and a key value, so that the same
    selection written in two places is the same term. */
module Seqs {
  import opened Wrappers

  /** `r` keeps some of the elements of `s`, in their order in `s`. */
  ghost predicate IsSubsequence<T>(r: seq<T>, s: seq<T>)
    decreases |s|
  {
    if r == [] then true
    else if s == [] then false
    else (r[0] == s[0] && IsSubsequence(r[1..], s[1..])) || IsSubsequence(r, s[1..])
  }

  /** No two elements of `s` share a key. */
  ghost predicate DistinctKeys<T, K>(s: seq<T>, key: T -> K)
  {
    forall i, j :: 0 <= i < j < |s| ==> key(s[i]) != key(s[j])
  }

  /** Every key in `s` is below `bound`. */
  ghost predicate KeysBelow<T>(s: seq<T>, key: T -> int, bound: int)
  {
    forall i :: 0 <= i < |s| ==> key(s[i]) < bound
  }

  /** Number of elements of `s` whose key is `k`. */
  function CountWhere<T, K(==)>(s: seq<T>, key: T -> K, k: K): (n: nat)
    ensures n <= |s|
    ensures n == 0 <==> forall i :: 0 <= i < |s| ==> key(s[i]) != k
    ensures n == |s| <==> forall i :: 0 <= i < |s| ==> key(s[i]) == k
  {
    if s == [] then 0
    else (if key(s[0]) == k then 1 else 0) + CountWhere(s[1..], key, k)
  }

  /** The elements of `s` whose key is `k`, in their order in `s`: a
      subsequence of `s` made of matching elements only, and as long as the
      number of matching elements, hence all of them. */
  function Where<T, K(==)>(s: seq<T>, key: T -> K, k: K): (r: seq<T>)
    ensures IsSubsequence(r, s)
    ensures forall i :: 0 <= i < |r| ==> key(r[i]) == k
    ensures |r| == CountWhere(s, key, k)
  {
    if s == [] then []
    else
      var rest := Where(s[1..], key, k);
      if key(s[0]) == k then
        assert ([s[0]] + rest)[1..] == rest;
        [s[0]] + rest
      else rest
  }

  /** The elements of `s` whose key is not `k`, in their order in `s`. */
  function WhereNot<T, K(==)>(s: seq<T>, key: T -> K, k: K): (r: seq<T>)
    ensures IsSubsequence(r, s)
    ensures forall i :: 0 <= i < |r| ==> key(r[i]) != k
    ensures |r| == |s| - CountWhere(s, key, k)
  {
    if s == [] then []
    else
      var rest := WhereNot(s[1..], key, k);
      if key(s[0]) != k then
        assert ([s[0]] + rest)[1..] == rest;
        [s[0]] + rest
      else rest
  }

  /** Position of the first element of `s` whose key is `k`, if any. */
  function IndexOf<T, K(==)>(s: seq<T>, key: T -> K, k: K): (r: Option<nat>)
    ensures r.None? <==> forall i :: 0 <= i < |s| ==> key(s[i]) != k
    ensures r.Some? ==> r.value < |s| && key(s[r.value]) == k
    ensures r.Some? ==> forall i :: 0 <= i < r.value ==> key(s[i]) != k
  {
    if s == [] then None
    else if key(s[0]) == k then Some(0)
    else match IndexOf(s[1..], key, k)
      case None => None
      case Some(j) => Some(j + 1)
  }

  function Min(a: int, b: int): int
  {
    if a <= b then a else b
  }

  /** The first `n` elements of `s`, or all of `s` when it is shorter. */
  function Take<T>(s: seq<T>, n: nat): (r: seq<T>)
    ensures |r| == Min(n, |s|)
    ensures r <= s
  {
    if |s| <= n then s else s[..n]
  }

  /** When the keys of `s` are distinct, the element holding key `key(s[i])`
      is found at `i`. */
  lemma IndexOfDistinct<T, K>(s: seq<T>, key: T -> K, i: nat)
    requires DistinctKeys(s, key)
    requires i < |s|
    ensures IndexOf(s, key, key(s[i])) == Some(i)
  {
  }

  /** With distinct keys, a key value occurs at most once. */
  lemma {:induction false} CountDistinctAtMostOne<T, K>(s: seq<T>, key: T -> K, k: K)
    requires DistinctKeys(s, key)
    ensures CountWhere(s, key, k) <= 1
    decreases |s|
  {
    if s != [] {
      assert forall i, j :: 0 <= i < j < |s[1..]| ==> s[1..][i] == s[i + 1] && s[1..][j] == s[j + 1];
      if key(s[0]) == k {
        assert forall i :: 0 <= i < |s[1..]| ==> s[1..][i] == s[i + 1] && key(s[i + 1]) != k;
      } else {
        CountDistinctAtMostOne(s[1..], key, k);
      }
    }
  }

  lemma {:induction false} CountWhereAppend<T, K>(a: seq<T>, b: seq<T>, key: T -> K, k: K)
    ensures CountWhere(a + b, key, k) == CountWhere(a, key, k) + CountWhere(b, key, k)
    decreases |a|
  {
    if a == [] {
      assert a + b == b;
    } else {
      assert (a + b)[1..] == a[1..] + b;
      CountWhereAppend(a[1..], b, key, k);
    }
  }

  lemma {:induction false} WhereAppend<T, K>(a: seq<T>, b: seq<T>, key: T -> K, k: K)
    ensures Where(a + b, key, k) == Where(a, key, k) + Where(b, key, k)
    decreases |a|
  {
    if a == [] {
      assert a + b == b;
    } else {
      assert (a + b)[1..] == a[1..] + b;
      WhereAppend(a[1..], b, key, k);
    }
  }

  /** Removing the key a sequence does not contain leaves it as it is. */
  lemma {:induction false} WhereNotAbsent<T, K>(s: seq<T>, key: T -> K, k: K)
    requires forall i :: 0 <= i < |s| ==> key(s[i]) != k
    ensures WhereNot(s, key, k) == s
    decreases |s|
  {
    if s != [] {
      WhereNotAbsent(s[1..], key, k);
      assert [s[0]] + s[1..] == s;
    }
  }

  /** With distinct keys, dropping the elements with key `key(s[i])` drops
      position `i` and nothing else. */
  lemma {:induction false} WhereNotDistinct<T, K>(s: seq<T>, key: T -> K, i: nat)
    requires DistinctKeys(s, key)
    requires i < |s|
    ensures WhereNot(s, key, key(s[i])) == s[..i] + s[i + 1..]
    decreases |s|
  {
    var k := key(s[i]);
    if i == 0 {
      forall j | 0 <= j < |s[1..]|
        ensures key(s[1..][j]) != k
      {
        assert s[1..][j] == s[j + 1];
      }
      WhereNotAbsent(s[1..], key, k);
    } else {
      DistinctKeysTail(s, key);
      assert s[1..][i - 1] == s[i];
      WhereNotDistinct(s[1..], key, i - 1);
      assert s[..i] == [s[0]] + s[1..][..i - 1];
      assert s[i + 1..] == s[1..][i..];
    }
  }

  lemma DistinctKeysTail<T, K>(s: seq<T>, key: T -> K)
    requires DistinctKeys(s, key)
    requires s != []
    ensures DistinctKeys(s[1..], key)
  {
    forall a, b | 0 <= a < b < |s[1..]|
      ensures key(s[1..][a]) != key(s[1..][b])
    {
      assert s[1..][a] == s[a + 1] && s[1..][b] == s[b + 1];
    }
  }

  /** Two different key values select disjoint parts of a sequence. */
  lemma {:induction false} CountTwoKeys<T, K>(s: seq<T>, key: T -> K, k1: K, k2: K)
    requires k1 != k2
    ensures CountWhere(s, key, k1) + CountWhere(s, key, k2) <= |s|
    decreases |s|
  {
    if s != [] {
      CountTwoKeys(s[1..], key, k1, k2);
    }
  }

  /** Three different key values select disjoint parts of a sequence; they
      cover it exactly when every key is one of the three. */
  lemma {:induction false} CountThreeKeys<T, K>(s: seq<T>, key: T -> K, k1: K, k2: K, k3: K)
    requires k1 != k2 && k1 != k3 && k2 != k3
    ensures CountWhere(s, key, k1) + CountWhere(s, key, k2) + CountWhere(s, key, k3) <= |s|
    ensures (forall i :: 0 <= i < |s| ==> key(s[i]) == k1 || key(s[i]) == k2 || key(s[i]) == k3)
        <==> CountWhere(s, key, k1) + CountWhere(s, key, k2) + CountWhere(s, key, k3) == |s|
    decreases |s|
  {
    if s != [] {
      CountThreeKeys(s[1..], key, k1, k2, k3);
      assert forall i :: 1 <= i < |s| ==> s[1..][i - 1] == s[i];
    }
  }
}
