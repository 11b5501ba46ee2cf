/** Python's sequence slicing and the list idioms the pagination code uses
    (`s[:n]`, `s[lo:hi]`, `s[::-1]`, a filtering comprehension), on any
    element type. */
module Sequences {

  function Min(a: int, b: int): int {
    if a < b then a else b
  }

  /** Python's `s[::-1]`. */
  function Reverse<T>(s: seq<T>): (r: seq<T>)
    ensures |r| == |s|
    ensures forall k :: 0 <= k < |s| ==> r[k] == s[|s| - 1 - k]
  {
    if s == [] then [] else Reverse(s[1..]) + [s[0]]
  }

  lemma {:induction false} ReverseInvolution<T>(s: seq<T>)
    ensures Reverse(Reverse(s)) == s
  {
    var r := Reverse(Reverse(s));
    assert |r| == |s|;
    forall k | 0 <= k < |s|
      ensures r[k] == s[k]
    {
      assert r[k] == Reverse(s)[|s| - 1 - k];
    }
  }

  lemma SplitAt<T>(s: seq<T>, i: nat, j: nat)
    requires i <= j <= |s|
    ensures s[i..] == s[i..j] + s[j..]
  {
  }

  /** A sequence with `x` appended, cut around its `i`-th element. */
  lemma Around<T>(s: seq<T>, i: nat, x: T)
    requires i < |s|
    ensures s + [x] == s[..i] + [s[i]] + (s[i + 1..] + [x])
  {
    assert s == s[..i] + [s[i]] + s[i + 1..];
  }

  /** Dropping the first element of a reversed sequence drops the last of the original. */
  lemma {:induction false} ReverseTail<T>(s: seq<T>)
    requires s != []
    ensures Reverse(s)[1..] == Reverse(s[..|s| - 1])
  {
    if |s| > 1 {
      var init := s[..|s| - 1];
      ReverseTail(s[1..]);
      assert s[1..][..|s| - 2] == init[1..];
      assert Reverse(s)[1..] == Reverse(s[1..])[1..] + [s[0]];
      assert Reverse(init) == Reverse(init[1..]) + [s[0]];
    }
  }

  /** Python's `s[:n]` for `n >= 0`. */
  function Take<T>(s: seq<T>, n: nat): (r: seq<T>)
    ensures |r| == Min(n, |s|)
    ensures r == s[..|r|]
  {
    s[..Min(n, |s|)]
  }

  /** Python's `s[lo:hi]` for `0 <= lo`, `0 <= hi`: both ends clamped to the
      length, empty when `hi <= lo`. */
  function Slice<T>(s: seq<T>, lo: nat, hi: nat): (r: seq<T>)
    ensures lo < |s| && lo <= hi ==> r == s[lo..Min(hi, |s|)]
    ensures lo >= |s| || hi <= lo ==> r == []
  {
    if lo >= |s| || hi <= lo then [] else s[lo..Min(hi, |s|)]
  }

  /** `[x for x in s if p(x)]`. */
  function Filter<T>(p: T -> bool, s: seq<T>): (r: seq<T>)
    ensures |r| <= |s|
    ensures forall k :: 0 <= k < |r| ==> p(r[k])
  {
    if s == [] then []
    else (if p(s[0]) then [s[0]] else []) + Filter(p, s[1..])
  }

  /** Filtering keeps exactly the elements that satisfy `p`. */
  lemma {:induction false} FilterMembers<T>(p: T -> bool, s: seq<T>, x: T)
    ensures x in Filter(p, s) <==> x in s && p(x)
  {
    if s != [] {
      FilterMembers(p, s[1..], x);
      assert x in s <==> x == s[0] || x in s[1..];
    }
  }

  /** When `p` holds exactly on the first `m` elements, filtering keeps that prefix. */
  lemma {:induction false} FilterPrefix<T>(p: T -> bool, s: seq<T>, m: nat)
    requires m <= |s|
    requires forall k :: 0 <= k < m ==> p(s[k])
    requires forall k :: m <= k < |s| ==> !p(s[k])
    ensures Filter(p, s) == s[..m]
  {
    if s != [] {
      if m == 0 {
        assert !p(s[0]);
        FilterPrefix(p, s[1..], 0);
      } else {
        FilterPrefix(p, s[1..], m - 1);
        assert [s[0]] + s[1..][..m - 1] == s[..m];
      }
    }
  }

  /** When `p` holds exactly from index `m` on, filtering keeps that suffix. */
  lemma {:induction false} FilterSuffix<T>(p: T -> bool, s: seq<T>, m: nat)
    requires m <= |s|
    requires forall k :: 0 <= k < m ==> !p(s[k])
    requires forall k :: m <= k < |s| ==> p(s[k])
    ensures Filter(p, s) == s[m..]
  {
    if s != [] {
      if m == 0 {
        FilterSuffix(p, s[1..], 0);
        assert [s[0]] + s[1..] == s;
      } else {
        assert !p(s[0]);
        FilterSuffix(p, s[1..], m - 1);
        assert s[1..][m - 1..] == s[m..];
      }
    }
  }
}
