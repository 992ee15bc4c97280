/**
 Ascending-key iteration. `std::map` visits its keys in ascending order and
 `std::sort` followed by `std::unique` yields the distinct elements in
 ascending order; both are modelled by `Sorted`, which lists a finite set
 along a strict total order.
 */
module Ordering {

  /** `lt` is a strict total order on `T`. */
  ghost predicate StrictTotal<T(!new)>(lt: (T, T) -> bool) {
    && (forall a, b :: lt(a, b) ==> !lt(b, a))
    && (forall a, b, c :: lt(a, b) && lt(b, c) ==> lt(a, c))
    && (forall a, b :: a != b ==> lt(a, b) || lt(b, a))
  }

  /** `x` is the least element of `s`. */
  predicate IsLeast<T>(s: set<T>, x: T, lt: (T, T) -> bool) {
    x in s && forall y | y in s && y != x :: lt(x, y)
  }

  lemma {:induction false} LeastExists<T(!new)>(s: set<T>, lt: (T, T) -> bool)
    requires s != {}
    requires StrictTotal(lt)
    ensures exists x :: IsLeast(s, x, lt)
    decreases |s|
  {
    var z :| z in s;
    if s - {z} == {} {
      assert s == {z};
      assert IsLeast(s, z, lt);
    } else {
      LeastExists(s - {z}, lt);
      var m :| IsLeast(s - {z}, m, lt);
      if lt(m, z) {
        assert IsLeast(s, m, lt);
      } else {
        assert IsLeast(s, z, lt);
      }
    }
  }

  /** The least element of a non-empty finite set (`LeastIsLeast`). */
  function Least<T(!new)>(s: set<T>, lt: (T, T) -> bool): (x: T)
    requires s != {}
    requires StrictTotal(lt)
    ensures x in s
  {
    LeastExists(s, lt);
    var x :| IsLeast(s, x, lt);
    x
  }

  lemma LeastIsLeast<T(!new)>(s: set<T>, lt: (T, T) -> bool)
    requires s != {}
    requires StrictTotal(lt)
    ensures IsLeast(s, Least(s, lt), lt)
  {
    LeastExists(s, lt);
  }

  /** The elements of `s` in ascending order (`SortedAscending`), each exactly once. */
  function Sorted<T(!new)>(s: set<T>, lt: (T, T) -> bool): (r: seq<T>)
    requires StrictTotal(lt)
    ensures |r| == |s|
    ensures forall x :: x in r <==> x in s
    decreases |s|
  {
    if s == {} then []
    else
      var x := Least(s, lt);
      [x] + Sorted(s - {x}, lt)
  }

  /** `Sorted` lists the set in ascending order. */
  lemma {:induction false} SortedAscending<T(!new)>(s: set<T>, lt: (T, T) -> bool)
    requires StrictTotal(lt)
    ensures forall i, j :: 0 <= i < j < |Sorted(s, lt)| ==> lt(Sorted(s, lt)[i], Sorted(s, lt)[j])
    decreases |s|
  {
    if s != {} {
      var x := Least(s, lt);
      var rest := Sorted(s - {x}, lt);
      LeastIsLeast(s, lt);
      SortedAscending(s - {x}, lt);
      var r := Sorted(s, lt);
      assert r == [x] + rest;
      forall i, j | 0 <= i < j < |r| ensures lt(r[i], r[j]) {
        if i == 0 {
          assert r[j] == rest[j - 1] && rest[j - 1] in s - {x};
        } else {
          assert r[i] == rest[i - 1] && r[j] == rest[j - 1];
        }
      }
    }
  }

  /** An ascending sequence lists each element once. */
  lemma AscendingDistinct<T(!new)>(r: seq<T>, lt: (T, T) -> bool)
    requires StrictTotal(lt)
    requires forall i, j :: 0 <= i < j < |r| ==> lt(r[i], r[j])
    ensures forall i, j :: 0 <= i < |r| && 0 <= j < |r| && i != j ==> r[i] != r[j]
  {
    forall i, j | 0 <= i < |r| && 0 <= j < |r| && i != j
      ensures r[i] != r[j]
    {
      if i < j {
        assert lt(r[i], r[j]);
      } else {
        assert lt(r[j], r[i]);
      }
    }
  }

  /** The usual order of the naturals (particle ids are `size_t`). */
  predicate NatLt(a: nat, b: nat) {
    a < b
  }

  lemma NatLtIsStrictTotal()
    ensures StrictTotal(NatLt)
  {
  }

  /** Particle ids in ascending order. */
  function SortedIds(s: set<nat>): (r: seq<nat>)
    ensures |r| == |s|
    ensures forall x :: x in r <==> x in s
  {
    Sorted(s, NatLt)
  }

  /** `SortedIds` lists the ids in strictly ascending order. */
  lemma SortedIdsAscending(s: set<nat>)
    ensures forall i, j :: 0 <= i < j < |SortedIds(s)| ==> SortedIds(s)[i] < SortedIds(s)[j]
  {
    NatLtIsStrictTotal();
    SortedAscending(s, NatLt);
  }

  /**
   The comparison `std::array<long, N>::operator<`: lexicographic. On
   sequences of different lengths a proper prefix comes first, which makes
   the order total on all sequences.
   */
  predicate LexLt(a: seq<int>, b: seq<int>)
    decreases |a|
  {
    if |a| == 0 then |b| > 0
    else if |b| == 0 then false
    else a[0] < b[0] || (a[0] == b[0] && LexLt(a[1..], b[1..]))
  }

  lemma {:induction false} LexLtAsymmetric(a: seq<int>, b: seq<int>)
    ensures LexLt(a, b) ==> !LexLt(b, a)
    decreases |a|
  {
    if |a| > 0 && |b| > 0 && a[0] == b[0] {
      LexLtAsymmetric(a[1..], b[1..]);
    }
  }

  lemma {:induction false} LexLtTransitive(a: seq<int>, b: seq<int>, c: seq<int>)
    ensures LexLt(a, b) && LexLt(b, c) ==> LexLt(a, c)
    decreases |a|
  {
    if |a| > 0 && |b| > 0 && |c| > 0 {
      LexLtTransitive(a[1..], b[1..], c[1..]);
    }
  }

  lemma {:induction false} LexLtTotal(a: seq<int>, b: seq<int>)
    ensures a != b ==> LexLt(a, b) || LexLt(b, a)
    decreases |a|
  {
    if |a| > 0 && |b| > 0 && a[0] == b[0] {
      LexLtTotal(a[1..], b[1..]);
      if a[1..] == b[1..] {
        assert a == [a[0]] + a[1..] && b == [b[0]] + b[1..];
      }
    }
  }

  lemma LexLtIsStrictTotal()
    ensures StrictTotal(LexLt)
  {
    forall a, b ensures LexLt(a, b) ==> !LexLt(b, a) {
      LexLtAsymmetric(a, b);
    }
    forall a, b, c ensures LexLt(a, b) && LexLt(b, c) ==> LexLt(a, c) {
      LexLtTransitive(a, b, c);
    }
    forall a, b ensures a != b ==> LexLt(a, b) || LexLt(b, a) {
      LexLtTotal(a, b);
    }
  }

  /** Volume ids in ascending (lexicographic) order (`SortedVolumeIdsAscending`). */
  function SortedVolumeIds(s: set<seq<int>>): (r: seq<seq<int>>)
    ensures |r| == |s|
    ensures forall x :: x in r <==> x in s
  {
    LexLtIsStrictTotal();
    Sorted(s, LexLt)
  }

  /** `SortedVolumeIds` lists the ids in ascending order. */
  lemma SortedVolumeIdsAscending(s: set<seq<int>>)
    ensures forall i, j :: 0 <= i < j < |SortedVolumeIds(s)| ==> LexLt(SortedVolumeIds(s)[i], SortedVolumeIds(s)[j])
  {
    LexLtIsStrictTotal();
    SortedAscending(s, LexLt);
  }
}
