/** String order as Go compares strings, and sorting of duplicate-free sequences. */
module Ordering {

  /** Lexicographic order; by code point, which is also the order of the UTF-8 bytes. */
  predicate Less(a: string, b: string)
  {
    b != [] && (a == [] || a[0] < b[0] || (a[0] == b[0] && Less(a[1..], b[1..])))
  }

  lemma {:induction false} LessTransitive(a: string, b: string, c: string)
    requires Less(a, b) && Less(b, c)
    ensures Less(a, c)
  {
    if a != [] && a[0] == b[0] && b[0] == c[0] {
      LessTransitive(a[1..], b[1..], c[1..]);
    }
  }

  lemma {:induction false} LessIrreflexive(a: string)
    ensures !Less(a, a)
  {
    if a != [] { LessIrreflexive(a[1..]); }
  }

  lemma LessAsymmetric(a: string, b: string)
    requires Less(a, b)
    ensures !Less(b, a)
  {
    if Less(b, a) {
      LessTransitive(a, b, a);
      LessIrreflexive(a);
    }
  }

  lemma {:induction false} LessTotal(a: string, b: string)
    ensures Less(a, b) || a == b || Less(b, a)
  {
    if a != [] && b != [] && a[0] == b[0] {
      LessTotal(a[1..], b[1..]);
      assert a == [a[0]] + a[1..] && b == [b[0]] + b[1..];
    }
  }

  /** Order of `spoke`, then `name`. */
  predicate PairLess(a: (string, string), b: (string, string))
  {
    Less(a.0, b.0) || (a.0 == b.0 && Less(a.1, b.1))
  }

  ghost predicate StrictOrder<T(!new)>(less: (T, T) -> bool)
  {
    && (forall x :: !less(x, x))
    && (forall x, y, z :: less(x, y) && less(y, z) ==> less(x, z))
  }

  ghost predicate StrictTotalOrder<T(!new)>(less: (T, T) -> bool)
  {
    StrictOrder(less) && forall x, y :: less(x, y) || x == y || less(y, x)
  }

  /** Any two elements at different positions are ordered one way or the other. */
  ghost predicate Comparable<T>(s: seq<T>, less: (T, T) -> bool)
  {
    forall i, j :: 0 <= i < j < |s| ==> less(s[i], s[j]) || less(s[j], s[i])
  }

  lemma LessIsOrder()
    ensures StrictTotalOrder(Less)
  {
    forall x { LessIrreflexive(x); }
    forall x, y, z | Less(x, y) && Less(y, z) ensures Less(x, z) { LessTransitive(x, y, z); }
    forall x, y ensures Less(x, y) || x == y || Less(y, x) { LessTotal(x, y); }
  }

  lemma PairLessIsOrder()
    ensures StrictTotalOrder(PairLess)
  {
    LessIsOrder();
    forall x, y ensures PairLess(x, y) || x == y || PairLess(y, x) {
      assert Less(x.0, y.0) || x.0 == y.0 || Less(y.0, x.0);
      assert Less(x.1, y.1) || x.1 == y.1 || Less(y.1, x.1);
    }
    forall x, y, z | PairLess(x, y) && PairLess(y, z) ensures PairLess(x, z) {
      if Less(x.0, y.0) && Less(y.0, z.0) {
      } else if x.0 == y.0 == z.0 {
        assert Less(x.1, z.1);
      }
    }
  }

  ghost predicate StrictlySorted<T>(s: seq<T>, less: (T, T) -> bool)
  {
    forall i, j :: 0 <= i < j < |s| ==> less(s[i], s[j])
  }

  /** The position at which `x` belongs in the strictly sorted `s`. */
  method Position<T(!new)>(s: seq<T>, x: T, less: (T, T) -> bool) returns (p: nat)
    requires StrictOrder(less) && StrictlySorted(s, less)
    ensures p <= |s|
    ensures forall i :: 0 <= i < p ==> less(s[i], x)
    ensures forall i :: p <= i < |s| ==> !less(s[i], x)
  {
    p := 0;
    while p < |s| && less(s[p], x)
      invariant p <= |s|
      invariant forall i :: 0 <= i < p ==> less(s[i], x)
    {
      p := p + 1;
    }
    if p < |s| {
      forall i | p <= i < |s| ensures !less(s[i], x) {
        assert i > p ==> less(s[p], s[i]);
      }
    }
  }

  /** Sorting of a sequence without ties, standing for Go's sort.Strings and sort.Slice. */
  method Sort<T(!new)>(s: seq<T>, less: (T, T) -> bool) returns (r: seq<T>)
    requires StrictOrder(less) && Comparable(s, less)
    ensures |r| == |s|
    ensures StrictlySorted(r, less)
    ensures forall x :: x in r <==> x in s
  {
    r := [];
    for k := 0 to |s|
      invariant |r| == k
      invariant StrictlySorted(r, less)
      invariant forall x :: x in r <==> x in s[..k]
    {
      var p := Position(r, s[k], less);
      Inserted(r, s[..k], s[k], p, less);
      r := r[..p] + [s[k]] + r[p..];
      assert s[..k + 1] == s[..k] + [s[k]];
    }
    assert s[..|s|] == s;
  }

  /** Inserting an element at its position keeps a sorted sequence sorted. */
  lemma Inserted<T(!new)>(r: seq<T>, s: seq<T>, x: T, p: nat, less: (T, T) -> bool)
    requires StrictlySorted(r, less) && p <= |r| && (forall y :: y in r <==> y in s)
    requires forall y :: y in s ==> less(x, y) || less(y, x)
    requires (forall i :: 0 <= i < p ==> less(r[i], x)) && (forall i :: p <= i < |r| ==> !less(r[i], x))
    ensures StrictlySorted(r[..p] + [x] + r[p..], less)
    ensures forall y :: y in r[..p] + [x] + r[p..] <==> y in s + [x]
  {
    forall i | p <= i < |r| ensures less(x, r[i]) { assert r[i] in r; }
    forall y ensures y in r[..p] + [x] + r[p..] <==> y in s + [x] { assert r == r[..p] + r[p..]; }
  }

  /** A strictly sorted sequence is determined by its elements. */
  lemma {:induction false} SortedUnique<T(!new)>(a: seq<T>, b: seq<T>, less: (T, T) -> bool)
    requires StrictOrder(less) && StrictlySorted(a, less) && StrictlySorted(b, less)
    requires forall x :: x in a <==> x in b
    ensures a == b
  {
    if a == [] {
      assert forall i :: 0 <= i < |b| ==> b[i] in a;
    } else {
      assert a[0] in b && b != [] && b[0] in a;
      assert a[0] == b[0];
      forall x ensures x in a[1..] <==> x in b[1..] {
        if x in a[1..] { assert x in a && less(a[0], x); }
        if x in b[1..] { assert x in b && less(b[0], x); }
      }
      SortedUnique(a[1..], b[1..], less);
      assert a == [a[0]] + a[1..] && b == [b[0]] + b[1..];
    }
  }
}
