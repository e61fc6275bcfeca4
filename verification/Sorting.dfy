/**
 The in-place insertion sort the findings go through (sortedStrings in
 pkg/tls/connection_analysis/analysis/key_exchange.go) and the stable sort of the report
 (sortResults in cmd/altshift_web_security/report.go): one order, one result.
 */
module Sorting {
  // x is moved left past everything it comes before.
  function Insert<T>(less: (T, T) -> bool, sorted: seq<T>, x: T): (result: seq<T>)
    ensures |result| == |sorted| + 1
  {
    var n := |sorted|;
    if n == 0 || !less(x, sorted[n - 1]) then sorted + [x]
    else Insert(less, sorted[..n - 1], x) + [sorted[n - 1]]
  }

  function Sort<T>(less: (T, T) -> bool, s: seq<T>): (result: seq<T>)
    ensures |result| == |s|
  {
    if s == [] then [] else Insert(less, Sort(less, s[..|s| - 1]), s[|s| - 1])
  }

  lemma InsertionDone<T>(less: (T, T) -> bool, sorted: seq<T>, x: T, j: nat)
    requires j <= |sorted|
    requires j == 0 || !less(x, sorted[j - 1])
    ensures Insert(less, sorted[..j], x) + sorted[j..] == sorted[..j] + [x] + sorted[j..]
  {
  }

  lemma InsertionStep<T>(less: (T, T) -> bool, sorted: seq<T>, x: T, j: nat)
    requires 0 < j <= |sorted| && less(x, sorted[j - 1])
    ensures Insert(less, sorted[..j], x) + sorted[j..] == Insert(less, sorted[..j - 1], x) + sorted[j - 1..]
  {
    assert sorted[..j][..j - 1] == sorted[..j - 1];
    assert [sorted[j - 1]] + sorted[j..] == sorted[j - 1..];
  }

  // The inner loop: one element swapped down to its place.
  method SwapDown<T>(a: array<T>, less: (T, T) -> bool, i: nat)
    requires i < a.Length
    modifies a
    ensures a[..i + 1] == Insert(less, old(a[..i]), old(a[i]))
    ensures forall k :: i < k < a.Length ==> a[k] == old(a[k])
  {
    ghost var sorted := a[..i];
    ghost var x := a[i];
    var j := i;
    assert sorted[..i] == sorted && sorted[i..] == [];
    while j > 0 && less(a[j], a[j - 1])
      invariant 0 <= j <= i
      invariant forall k :: 0 <= k < j ==> a[k] == sorted[k]
      invariant a[j] == x
      invariant forall k :: j < k <= i ==> a[k] == sorted[k - 1]
      invariant forall k :: i < k < a.Length ==> a[k] == old(a[k])
      invariant Insert(less, sorted, x) == Insert(less, sorted[..j], x) + sorted[j..]
    {
      InsertionStep(less, sorted, x, j);
      a[j], a[j - 1] := a[j - 1], a[j];
      j := j - 1;
    }
    InsertionDone(less, sorted, x, j);
    assert a[..i + 1] == sorted[..j] + [x] + sorted[j..];
  }

  method InsertionSort<T>(a: array<T>, less: (T, T) -> bool)
    modifies a
    ensures a[..] == Sort(less, old(a[..]))
  {
    ghost var s := a[..];
    if a.Length == 0 {
      return;
    }
    assert s[..1][..0] == [];
    var i := 1;
    while i < a.Length
      invariant 1 <= i <= a.Length == |s|
      invariant a[..i] == Sort(less, s[..i])
      invariant forall k :: i <= k < a.Length ==> a[k] == s[k]
    {
      assert s[..i + 1][..i] == s[..i];
      SwapDown(a, less, i);
      i := i + 1;
    }
    assert s[..i] == s && a[..i] == a[..];
  }

  // --- What sorting does --------------------------------------------------------------

  ghost predicate WeakOrder<T(!new)>(less: (T, T) -> bool) {
    && (forall x :: !less(x, x))
    && (forall x, y :: less(x, y) ==> !less(y, x))
    && (forall x, y, z :: !less(x, y) && !less(y, z) ==> !less(x, z))
  }

  predicate Same<T>(less: (T, T) -> bool, x: T, y: T) {
    !less(x, y) && !less(y, x)
  }

  // An order under which only equal things are the same.
  ghost predicate TotalOrder<T(!new)>(less: (T, T) -> bool) {
    WeakOrder(less) && forall x, y :: Same(less, x, y) ==> x == y
  }

  ghost predicate Ordered<T>(less: (T, T) -> bool, s: seq<T>) {
    forall i, j :: 0 <= i < j < |s| ==> !less(s[j], s[i])
  }

  // Everything in a list that ranks with x, in the order of the list.
  function Class<T>(less: (T, T) -> bool, s: seq<T>, x: T): seq<T> {
    if s == [] then [] else
    (if Same(less, s[0], x) then [s[0]] else []) + Class(less, s[1..], x)
  }

  lemma {:induction false} ClassAppend<T>(less: (T, T) -> bool, s: seq<T>, t: seq<T>, x: T)
    ensures Class(less, s + t, x) == Class(less, s, x) + Class(less, t, x)
  {
    if s == [] {
      assert s + t == t;
    } else {
      ClassAppend(less, s[1..], t, x);
      assert (s + t)[0] == s[0] && (s + t)[1..] == s[1..] + t;
    }
  }

  lemma {:induction false} InsertAdds<T>(less: (T, T) -> bool, sorted: seq<T>, x: T)
    ensures multiset(Insert(less, sorted, x)) == multiset(sorted) + multiset{x}
  {
    var n := |sorted|;
    if n > 0 && less(x, sorted[n - 1]) {
      InsertAdds(less, sorted[..n - 1], x);
      assert sorted == sorted[..n - 1] + [sorted[n - 1]];
    }
  }

  lemma {:induction false} InsertOrders<T(!new)>(less: (T, T) -> bool, sorted: seq<T>, x: T)
    requires WeakOrder(less) && Ordered(less, sorted)
    ensures Ordered(less, Insert(less, sorted, x))
  {
    var n := |sorted|;
    if n == 0 {
    } else if less(x, sorted[n - 1]) {
      var front, last := sorted[..n - 1], sorted[n - 1];
      InsertOrders(less, front, x);
      InsertAdds(less, front, x);
      var inserted := Insert(less, front, x);
      forall i | 0 <= i < |inserted| ensures !less(last, inserted[i]) {
        assert inserted[i] in multiset(inserted);
        assert inserted[i] == x || inserted[i] in front;
      }
    } else {
      forall i | 0 <= i < n ensures !less(x, sorted[i]) {
        assert i < n - 1 ==> !less(sorted[n - 1], sorted[i]);
      }
    }
  }

  lemma {:induction false} InsertStable<T(!new)>(less: (T, T) -> bool, sorted: seq<T>, x: T, y: T)
    requires WeakOrder(less)
    ensures Class(less, Insert(less, sorted, x), y) == Class(less, sorted + [x], y)
  {
    var n := |sorted|;
    if n > 0 && less(x, sorted[n - 1]) {
      var front, last := sorted[..n - 1], sorted[n - 1];
      InsertStable(less, front, x, y);
      ClassAppend(less, Insert(less, front, x), [last], y);
      ClassAppend(less, front, [x], y);
      PassesBy(less, front, x, last, y);
      assert sorted + [x] == front + [last, x];
    }
  }

  // Two things of which one comes before the other are not both in one class, so
  // swapping them changes none.
  lemma PassesBy<T(!new)>(less: (T, T) -> bool, front: seq<T>, x: T, last: T, y: T)
    requires WeakOrder(less) && less(x, last)
    ensures Class(less, front, y) + Class(less, [x], y) + Class(less, [last], y) == Class(less, front + [last, x], y)
  {
    ClassAppend(less, front, [last, x], y);
    assert [last, x][1..] == [x];
    assert Class(less, [last, x], y) == Class(less, [last], y) + Class(less, [x], y);
    if Same(less, x, y) && Same(less, last, y) {
      assert false;
    }
  }

  // Sorting orders a list, keeps everything in it, and keeps the order of what ranks
  // the same.
  lemma {:induction false} SortSorts<T(!new)>(less: (T, T) -> bool, s: seq<T>)
    requires WeakOrder(less)
    ensures Ordered(less, Sort(less, s))
    ensures multiset(Sort(less, s)) == multiset(s)
    ensures forall x :: Class(less, Sort(less, s), x) == Class(less, s, x)
  {
    if s != [] {
      var front, last := s[..|s| - 1], s[|s| - 1];
      SortSorts(less, front);
      InsertOrders(less, Sort(less, front), last);
      InsertAdds(less, Sort(less, front), last);
      assert s == front + [last];
      forall x ensures Class(less, Sort(less, s), x) == Class(less, s, x) {
        InsertStable(less, Sort(less, front), last, x);
        ClassAppend(less, Sort(less, front), [last], x);
        ClassAppend(less, front, [last], x);
      }
    }
  }

  lemma {:induction false} ClassMember<T>(less: (T, T) -> bool, s: seq<T>, x: T, k: nat)
    requires k < |s| && Same(less, s[k], x)
    ensures Class(less, s, x) != []
  {
    if k > 0 {
      ClassMember(less, s[1..], x, k - 1);
    }
  }

  lemma {:induction false} ClassFrom<T>(less: (T, T) -> bool, s: seq<T>, x: T) returns (k: nat)
    requires Class(less, s, x) != []
    ensures k < |s| && Same(less, s[k], x)
  {
    if Same(less, s[0], x) {
      k := 0;
    } else {
      k := ClassFrom(less, s[1..], x);
      k := k + 1;
    }
  }

  lemma FirstNotAbove<T(!new)>(less: (T, T) -> bool, t: seq<T>, u: seq<T>)
    requires WeakOrder(less) && Ordered(less, u) && t != []
    requires forall x :: Class(less, t, x) == Class(less, u, x)
    ensures u != [] && !less(t[0], u[0])
  {
    ClassMember(less, t, t[0], 0);
    var k := ClassFrom(less, u, t[0]);
    assert k == 0 || !less(u[k], u[0]);
  }

  lemma ClassRest<T>(less: (T, T) -> bool, s: seq<T>, x: T)
    requires s != []
    ensures Same(less, s[0], x) ==> Class(less, s, x) != [] && Class(less, s[1..], x) == Class(less, s, x)[1..]
    ensures !Same(less, s[0], x) ==> Class(less, s[1..], x) == Class(less, s, x)
  {
  }

  // There is only one way to be ordered and stable: whatever algorithm sorts stably
  // comes to the same list.
  lemma {:induction false} StableUnique<T(!new)>(less: (T, T) -> bool, t: seq<T>, u: seq<T>)
    requires WeakOrder(less) && Ordered(less, t) && Ordered(less, u)
    requires forall x :: Class(less, t, x) == Class(less, u, x)
    ensures t == u
  {
    if t == [] {
      if u != [] {
        FirstNotAbove(less, u, t);
      }
    } else {
      FirstNotAbove(less, t, u);
      FirstNotAbove(less, u, t);
      assert Class(less, t, t[0])[0] == t[0] && Class(less, u, t[0])[0] == u[0];
      assert t[0] == u[0];
      forall x ensures Class(less, t[1..], x) == Class(less, u[1..], x) {
        ClassRest(less, t, x);
        ClassRest(less, u, x);
      }
      StableUnique(less, t[1..], u[1..]);
      assert t == [t[0]] + t[1..] && u == [u[0]] + u[1..];
    }
  }

  lemma {:induction false} ClassOfTotal<T(!new)>(less: (T, T) -> bool, s: seq<T>, x: T)
    requires TotalOrder(less)
    ensures Class(less, s, x) == seq(multiset(s)[x], _ => x)
  {
    if s != [] {
      ClassOfTotal(less, s[1..], x);
      assert s == [s[0]] + s[1..];
      assert Same(less, s[0], x) <==> s[0] == x;
    }
  }

  // Under a total order the sorted list depends on what was sorted and not on the order
  // it came in.
  lemma SortForgetsOrder<T(!new)>(less: (T, T) -> bool, s: seq<T>, t: seq<T>)
    requires TotalOrder(less) && multiset(s) == multiset(t)
    ensures Sort(less, s) == Sort(less, t)
  {
    SortSorts(less, s);
    SortSorts(less, t);
    forall x ensures Class(less, Sort(less, s), x) == Class(less, Sort(less, t), x) {
      ClassOfTotal(less, s, x);
      ClassOfTotal(less, t, x);
    }
    StableUnique(less, Sort(less, s), Sort(less, t));
  }

  // --- Strings ------------------------------------------------------------------------

  // Go's < on strings.
  predicate Before(a: string, b: string) {
    if b == [] then false
    else if a == [] then true
    else a[0] < b[0] || (a[0] == b[0] && Before(a[1..], b[1..]))
  }

  lemma {:induction false} BeforeIrreflexive(a: string)
    ensures !Before(a, a)
  {
    if a != [] {
      BeforeIrreflexive(a[1..]);
    }
  }

  lemma {:induction false} BeforeAsymmetric(a: string, b: string)
    ensures Before(a, b) ==> !Before(b, a)
    ensures !Before(a, b) && !Before(b, a) ==> a == b
  {
    if a != [] && b != [] {
      BeforeAsymmetric(a[1..], b[1..]);
      if a[0] == b[0] && a[1..] == b[1..] {
        assert a == [a[0]] + a[1..] && b == [b[0]] + b[1..];
      }
    }
  }

  lemma {:induction false} BeforeTransitive(a: string, b: string, c: string)
    requires !Before(a, b) && !Before(b, c)
    ensures !Before(a, c)
  {
    if a != [] && b != [] && c != [] {
      if a[0] == b[0] == c[0] {
        BeforeTransitive(a[1..], b[1..], c[1..]);
      }
    }
  }

  lemma BeforeIsTotal()
    ensures TotalOrder(Before)
  {
    forall x: string ensures !Before(x, x) {
      BeforeIrreflexive(x);
    }
    forall x: string, y: string ensures Before(x, y) ==> !Before(y, x) {
      BeforeAsymmetric(x, y);
    }
    forall x: string, y: string, z: string ensures !Before(x, y) && !Before(y, z) ==> !Before(x, z) {
      if !Before(x, y) && !Before(y, z) {
        BeforeTransitive(x, y, z);
      }
    }
    assert WeakOrder(Before);
    forall x: string, y: string ensures Same(Before, x, y) ==> x == y {
      BeforeAsymmetric(x, y);
    }
  }

  // sortedStrings sorts a copy: what it was given stays as it is.
  method SortedStrings(values: array<string>) returns (sorted: array<string>)
    ensures fresh(sorted)
    ensures sorted[..] == Sort(Before, values[..])
  {
    sorted := new string[values.Length](i requires 0 <= i < values.Length reads values => values[i]);
    assert sorted[..] == values[..];
    InsertionSort(sorted, Before);
  }
}
