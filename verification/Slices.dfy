/**
 Slices of sequences put together and taken apart, one fact at a time.
 */
module Slices {

  // The n elements of a sequence from index i on.
  function Slice<T>(s: seq<T>, i: nat, n: nat): (r: seq<T>)
    requires i + n <= |s|
    ensures |r| == n
  {
    s[i..i + n]
  }

  lemma Assoc<T>(a: seq<T>, b: seq<T>, c: seq<T>)
    ensures a + (b + c) == a + b + c
  {
  }

  lemma Nothing<T>(s: seq<T>)
    ensures [] + s == s && s + [] == s
  {
  }

  lemma SliceNone<T>(s: seq<T>, i: nat)
    requires i <= |s|
    ensures Slice(s, i, 0) == [] && s[..0] == []
  {
  }

  lemma FromZero<T>(s: seq<T>, n: nat)
    requires n <= |s|
    ensures Slice(s, 0, n) == s[..n]
  {
  }

  lemma SliceAt<T>(s: seq<T>, i: nat, n: nat, k: nat)
    requires i + n <= |s| && k < n
    ensures Slice(s, i, n)[k] == s[i + k]
  {
  }

  lemma LastAt<T>(s: seq<T>, n: nat)
    requires n < |s|
    ensures s[..n + 1] == s[..n] + [s[n]]
  {
  }

  // Fronts that are equal are so element by element.
  lemma FrontAt<T>(s: seq<T>, t: seq<T>, n: nat)
    requires n <= |s| && n <= |t| && s[..n] == t[..n]
    ensures forall k :: 0 <= k < n ==> s[k] == t[k]
  {
    forall k | 0 <= k < n ensures s[k] == t[k] {
      assert s[..n][k] == t[..n][k];
    }
  }

  lemma SliceFront<T>(s: seq<T>, i: nat, n: nat, m: nat)
    requires i + n <= |s| && m <= n
    ensures Slice(s, i, n)[..m] == Slice(s, i, m)
  {
    var l, r := Slice(s, i, n)[..m], Slice(s, i, m);
    forall k | 0 <= k < m ensures l[k] == r[k] {
      SliceAt(s, i, n, k);
      SliceAt(s, i, m, k);
    }
  }

  lemma SliceBack<T>(s: seq<T>, i: nat, n: nat, m: nat)
    requires i + n <= |s| && m <= n
    ensures Slice(s, i, n)[m..] == Slice(s, i + m, n - m)
  {
    var l, r := Slice(s, i, n)[m..], Slice(s, i + m, n - m);
    forall k | 0 <= k < n - m ensures l[k] == r[k] {
      SliceAt(s, i, n, m + k);
      SliceAt(s, i + m, n - m, k);
    }
  }

  // Equal elements make equal slices.
  lemma SameSlice<T>(s: seq<T>, t: seq<T>, i: nat, n: nat)
    requires i + n <= |s| && i + n <= |t| && forall k :: i <= k < i + n ==> s[k] == t[k]
    ensures Slice(s, i, n) == Slice(t, i, n)
  {
    forall k | 0 <= k < n ensures Slice(s, i, n)[k] == Slice(t, i, n)[k] {
      SliceAt(s, i, n, k);
      SliceAt(t, i, n, k);
    }
  }

  lemma SameFront<T>(s: seq<T>, t: seq<T>, n: nat)
    requires n <= |s| && n <= |t| && forall k :: 0 <= k < n ==> s[k] == t[k]
    ensures s[..n] == t[..n]
  {
  }

  // Neighbouring slices.
  lemma Adjoin<T>(s: seq<T>, i: nat, n: nat, m: nat)
    requires i + n + m <= |s|
    ensures Slice(s, i, n + m) == Slice(s, i, n) + Slice(s, i + n, m)
  {
    var l, r := Slice(s, i, n + m), Slice(s, i, n) + Slice(s, i + n, m);
    forall k | 0 <= k < n + m ensures l[k] == r[k] {
      SliceAt(s, i, n + m, k);
      if k < n {
        SliceAt(s, i, n, k);
      } else {
        SliceAt(s, i + n, m, k - n);
      }
    }
  }

  lemma Upto<T>(s: seq<T>, i: nat, n: nat)
    requires i + n <= |s|
    ensures s[..i + n] == s[..i] + Slice(s, i, n)
  {
    FromZero(s, i);
    FromZero(s, i + n);
    Adjoin(s, 0, i, n);
  }

  lemma SliceMore<T>(s: seq<T>, i: nat, n: nat)
    requires i + n < |s|
    ensures Slice(s, i, n + 1) == Slice(s, i, n) + [s[i + n]]
  {
    Adjoin(s, i, n, 1);
    SliceAt(s, i + n, 1, 0);
    assert Slice(s, i + n, 1) == [s[i + n]];
  }

  lemma SliceFirst<T>(s: seq<T>, i: nat, n: nat)
    requires i + n < |s|
    ensures Slice(s, i, n + 1) == [s[i]] + Slice(s, i + 1, n)
  {
    Adjoin(s, i, 1, n);
    SliceAt(s, i, 1, 0);
    assert Slice(s, i, 1) == [s[i]];
  }

  // The parts of a front that is a concatenation.
  lemma Tail<T>(s: seq<T>, a: seq<T>, b: seq<T>)
    requires |a| + |b| <= |s| && s[..|a| + |b|] == a + b
    ensures s[..|a|] == a && Slice(s, |a|, |b|) == b
  {
    var x := a + b;
    forall k | 0 <= k < |a| ensures s[k] == a[k] {
      assert s[..|a| + |b|][k] == x[k];
    }
    forall k | 0 <= k < |b| ensures Slice(s, |a|, |b|)[k] == b[k] {
      SliceAt(s, |a|, |b|, k);
      assert s[..|a| + |b|][|a| + k] == x[|a| + k];
    }
  }

  lemma CutFront<T>(s: seq<T>, n: nat)
    requires n <= |s|
    ensures s == s[..n] + s[n..]
  {
  }
}
