/**
 * Python's ordering of `str` values (code point by code point, a proper
 * prefix first) and the ascending sort used for directory listings
 * (`list.sort()`) and speaker labels (`sorted(...)`).
 */
module Order {

  predicate Less(a: string, b: string)
    decreases |a|
  {
    if a == [] then b != []
    else b != [] && (a[0] < b[0] || (a[0] == b[0] && Less(a[1..], b[1..])))
  }

  predicate LessEq(a: string, b: string)
  {
    a == b || Less(a, b)
  }

  lemma {:induction false} LessIrreflexive(a: string)
    ensures !Less(a, a)
  {
    if a != [] {
      LessIrreflexive(a[1..]);
    }
  }

  lemma {:induction false} LessTransitive(a: string, b: string, c: string)
    requires Less(a, b) && Less(b, c)
    ensures Less(a, c)
  {
    if a != [] && a[0] == b[0] && b[0] == c[0] {
      LessTransitive(a[1..], b[1..], c[1..]);
    }
  }

  lemma {:induction false} LessTotal(a: string, b: string)
    ensures a == b || Less(a, b) || Less(b, a)
  {
    if a != [] && b != [] && a[0] == b[0] {
      LessTotal(a[1..], b[1..]);
      if a[1..] == b[1..] {
        assert a == [a[0]] + a[1..] && b == [b[0]] + b[1..];
      }
    }
  }

  lemma {:induction false} LessAsymmetric(a: string, b: string)
    requires Less(a, b)
    ensures !Less(b, a)
  {
    if Less(b, a) {
      LessTransitive(a, b, a);
      LessIrreflexive(a);
    }
  }

  lemma LessEqTransitive(a: string, b: string, c: string)
    requires LessEq(a, b) && LessEq(b, c)
    ensures LessEq(a, c)
  {
    if a != b && b != c {
      LessTransitive(a, b, c);
    }
  }

  /** Ascending order, as `list.sort()` leaves a list of strings. */
  predicate Sorted(xs: seq<string>)
  {
    forall i, j :: 0 <= i < j < |xs| ==> LessEq(xs[i], xs[j])
  }

  /** Ascending with no repeats, as `sorted(set(...))` returns. */
  predicate StrictlySorted(xs: seq<string>)
  {
    forall i, j :: 0 <= i < j < |xs| ==> Less(xs[i], xs[j])
  }

  function Insert(x: string, xs: seq<string>): (r: seq<string>)
    requires Sorted(xs)
    ensures Sorted(r)
    ensures multiset(r) == multiset(xs) + multiset{x}
  {
    if xs == [] then [x]
    else if LessEq(x, xs[0]) then
      InsertBefore(x, xs);
      [x] + xs
    else
      var rest := Insert(x, xs[1..]);
      assert xs == [xs[0]] + xs[1..];
      LessTotal(x, xs[0]);
      InsertAfter(x, xs, rest);
      [xs[0]] + rest
  }

  /** The head of `xs`, below `x`, stays in front of `x` inserted into the tail. */
  lemma InsertAfter(x: string, xs: seq<string>, rest: seq<string>)
    requires Sorted(xs) && xs != [] && LessEq(xs[0], x)
    requires Sorted(rest) && multiset(rest) == multiset(xs[1..]) + multiset{x}
    ensures Sorted([xs[0]] + rest)
  {
    forall k | 0 <= k < |rest| ensures LessEq(xs[0], rest[k]) {
      assert rest[k] in multiset(rest);
      if rest[k] != x {
        assert rest[k] in multiset(xs[1..]);
        var m :| 0 <= m < |xs[1..]| && xs[1..][m] == rest[k];
        assert xs[m + 1] == rest[k];
      }
    }
  }

  lemma InsertBefore(x: string, xs: seq<string>)
    requires Sorted(xs) && xs != [] && LessEq(x, xs[0])
    ensures Sorted([x] + xs)
  {
    forall i, j | 0 <= i < j < |[x] + xs| ensures LessEq(([x] + xs)[i], ([x] + xs)[j]) {
      if i == 0 && j > 1 {
        LessEqTransitive(x, xs[0], xs[j - 1]);
      }
    }
  }

  /** Insertion sort: the ascending permutation of `xs`. */
  function Sort(xs: seq<string>): (r: seq<string>)
    ensures Sorted(r)
    ensures multiset(r) == multiset(xs)
  {
    if xs == [] then []
    else
      assert xs == [xs[0]] + xs[1..];
      Insert(xs[0], Sort(xs[1..]))
  }

  /** The distinct elements of `xs`, first occurrences in order (`Series.unique()`). */
  function Distinct<T(==)>(xs: seq<T>): (r: seq<T>)
    ensures forall i :: 0 <= i < |r| ==> r[i] in xs
    ensures forall i :: 0 <= i < |xs| ==> xs[i] in r
    ensures forall i, j :: 0 <= i < j < |r| ==> r[i] != r[j]
    ensures |r| <= |xs|
    ensures forall i, j :: 0 <= i < j < |r| ==> FirstIndex(xs, r[i]) < FirstIndex(xs, r[j])
  {
    DistinctFromOrder(xs, []);
    DistinctFrom(xs, [])
  }

  /** The position of the first occurrence of `x` in `xs`. */
  function FirstIndex<T(==)>(xs: seq<T>, x: T): (i: nat)
    requires x in xs
    ensures i < |xs| && xs[i] == x && x !in xs[..i]
  {
    if xs[0] == x then 0
    else
      var k := FirstIndex(xs[1..], x);
      assert xs[..k + 1] == [xs[0]] + xs[1..][..k];
      k + 1
  }

  function DistinctFrom<T(==)>(xs: seq<T>, seen: seq<T>): (r: seq<T>)
    requires forall i, j :: 0 <= i < j < |seen| ==> seen[i] != seen[j]
    ensures forall i :: 0 <= i < |r| ==> r[i] in xs || r[i] in seen
    ensures forall i :: 0 <= i < |xs| ==> xs[i] in r
    ensures forall i, j :: 0 <= i < j < |r| ==> r[i] != r[j]
    ensures |r| <= |xs| + |seen|
    ensures |seen| <= |r| && r[..|seen|] == seen
    ensures forall i :: 0 <= i < |seen| ==> seen[i] in r
    decreases |xs|
  {
    if xs == [] then seen
    else if xs[0] in seen then
      var r := DistinctFrom(xs[1..], seen);
      assert forall i :: 1 <= i < |xs| ==> xs[i] == xs[1..][i - 1];
      r
    else
      var seen' := seen + [xs[0]];
      var r := DistinctFrom(xs[1..], seen');
      assert seen'[|seen|] == xs[0];
      assert forall i :: 1 <= i < |xs| ==> xs[i] == xs[1..][i - 1];
      assert r[..|seen|] == r[..|seen'|][..|seen|];
      r
  }

  /** From position `from` on, `r` holds values of `xs` in the order of their first occurrences. */
  predicate NewInOrder<T(==)>(xs: seq<T>, r: seq<T>, from: nat)
  {
    (forall i :: from <= i < |r| ==> r[i] in xs)
    && forall i, j :: from <= i < j < |r| ==> FirstIndex(xs, r[i]) < FirstIndex(xs, r[j])
  }

  /** Past `seen`, `DistinctFrom` lists new values in the order of their first occurrences. */
  lemma {:induction false} DistinctFromOrder<T>(xs: seq<T>, seen: seq<T>)
    requires forall i, j :: 0 <= i < j < |seen| ==> seen[i] != seen[j]
    ensures NewInOrder(xs, DistinctFrom(xs, seen), |seen|)
    decreases |xs|
  {
    var r := DistinctFrom(xs, seen);
    if xs != [] {
      if xs[0] in seen {
        assert r == DistinctFrom(xs[1..], seen);
        DistinctFromOrder(xs[1..], seen);
        PastSeen(r, seen);
        FirstIndexShift(xs, r, |seen|);
      } else {
        var seen' := seen + [xs[0]];
        assert r == DistinctFrom(xs[1..], seen');
        DistinctFromOrder(xs[1..], seen');
        PastSeen(r, seen');
        FirstIndexShift(xs, r, |seen'|);
        assert r[|seen|] == seen'[|seen|];
        HeadFirst(xs, r, |seen|);
      }
    }
  }

  /** The head of `xs`, placed before values found later in it, keeps first-occurrence order. */
  lemma HeadFirst<T>(xs: seq<T>, r: seq<T>, from: nat)
    requires xs != [] && from < |r| && r[from] == xs[0]
    requires NewInOrder(xs, r, from + 1)
    requires forall i :: from + 1 <= i < |r| ==> FirstIndex(xs, r[i]) > 0
    ensures NewInOrder(xs, r, from)
  {
  }

  /** In a repetition-free sequence that starts with `seen`, nothing later is in `seen`. */
  lemma PastSeen<T>(r: seq<T>, seen: seq<T>)
    requires forall i, j :: 0 <= i < j < |r| ==> r[i] != r[j]
    requires |seen| <= |r| && r[..|seen|] == seen
    ensures forall i :: |seen| <= i < |r| ==> r[i] !in seen
  {
    assert forall k :: 0 <= k < |seen| ==> r[k] == seen[k];
  }

  /** Past the head, first positions in `xs` are one more than in its tail. */
  lemma FirstIndexShift<T>(xs: seq<T>, r: seq<T>, from: nat)
    requires xs != []
    requires forall i :: from <= i < |r| ==> r[i] != xs[0]
    requires NewInOrder(xs[1..], r, from)
    ensures NewInOrder(xs, r, from)
    ensures forall i :: from <= i < |r| ==> FirstIndex(xs, r[i]) > 0
  {
    assert forall i :: from <= i < |r| ==> r[i] in xs && FirstIndex(xs, r[i]) == FirstIndex(xs[1..], r[i]) + 1 by {
      assert forall i :: 1 <= i < |xs| ==> xs[i] == xs[1..][i - 1];
    }
  }

  /** `sorted(s.unique())`: the distinct values in ascending order. */
  function SortedDistinct(xs: seq<string>): (r: seq<string>)
    ensures StrictlySorted(r)
    ensures forall x :: x in r <==> x in xs
    ensures |r| <= |xs|
  {
    var d := Distinct(xs);
    var r := Sort(d);
    assert forall x :: x in r <==> x in d by {
      forall x ensures x in r <==> x in d {
        assert x in r <==> x in multiset(r);
        assert x in d <==> x in multiset(d);
      }
    }
    assert |r| == |multiset(r)| == |multiset(d)| == |d|;
    forall i, j | 0 <= i < j < |r| ensures Less(r[i], r[j]) {
      DistinctCountOne(d, r[j]);
      OnceMeansDistinct(r, i, j);
    }
    r
  }

  lemma DistinctCountOne<T>(d: seq<T>, x: T)
    requires forall i, j :: 0 <= i < j < |d| ==> d[i] != d[j]
    ensures multiset(d)[x] <= 1
  {
    if d != [] {
      assert d == [d[0]] + d[1..];
      DistinctCountOne(d[1..], x);
      if d[0] == x {
        assert x !in d[1..];
      }
    }
  }

  /** A value held once is different from every earlier element. */
  lemma OnceMeansDistinct<T>(r: seq<T>, i: nat, j: nat)
    requires i < j < |r| && multiset(r)[r[j]] <= 1
    ensures r[i] != r[j]
  {
    var front := r[..j];
    assert r == front + [r[j]] + r[j + 1..];
    assert multiset(r)[r[j]] == multiset(front)[r[j]] + 1 + multiset(r[j + 1..])[r[j]];
    assert front[i] == r[i];
    assert r[i] in multiset(front);
  }
}
