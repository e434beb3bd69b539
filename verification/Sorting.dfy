/** Strings in order: what Python's sorted and C++'s ordered containers iterate over. */
module Sorting {

  /** The order of Python's strings and of std::string: character by character. */
  predicate Leq(a: string, b: string) {
    a == [] || (b != [] && (a[0] < b[0] || (a[0] == b[0] && Leq(a[1..], b[1..]))))
  }

  /** At the first position where they differ, a holds the smaller character. */
  predicate DiffersBelow(a: string, b: string, k: int) {
    0 <= k < |a| && k < |b| && a[..k] == b[..k] && a[k] < b[k]
  }

  lemma SameHead(a: string, b: string, k: nat)
    requires k <= |a| && k <= |b| && a[..k] == b[..k]
    ensures k > 0 ==> a[0] == b[0]
  {
    if k > 0 {
      assert a[..k][0] == a[0] && b[..k][0] == b[0];
    }
  }

  lemma {:induction false} LeqIs(a: string, b: string)
    ensures Leq(a, b) <==> a <= b || exists k :: DiffersBelow(a, b, k)
  {
    if a != [] && b != [] && a[0] == b[0] {
      LeqIs(a[1..], b[1..]);
      if k :| DiffersBelow(a, b, k) {
        assert a[1..][..k - 1] == a[..k][1..] && b[1..][..k - 1] == b[..k][1..];
        assert DiffersBelow(a[1..], b[1..], k - 1);
      }
      if k :| DiffersBelow(a[1..], b[1..], k) {
        assert a[..k + 1] == [a[0]] + a[1..][..k] && b[..k + 1] == [b[0]] + b[1..][..k];
        assert DiffersBelow(a, b, k + 1);
      }
      assert a == [a[0]] + a[1..] && b == [b[0]] + b[1..];
    } else if a != [] && b != [] {
      forall k | DiffersBelow(a, b, k) ensures a[0] < b[0] {
        SameHead(a, b, k);
      }
      assert a[0] < b[0] ==> DiffersBelow(a, b, 0);
    }
  }

  lemma {:induction false} LeqTotal(a: string, b: string)
    ensures Leq(a, b) || Leq(b, a)
  {
    if a != [] && b != [] && a[0] == b[0] {
      LeqTotal(a[1..], b[1..]);
    }
  }

  lemma {:induction false} LeqTransitive(a: string, b: string, c: string)
    requires Leq(a, b) && Leq(b, c)
    ensures Leq(a, c)
  {
    if a != [] && a[0] == b[0] == c[0] {
      LeqTransitive(a[1..], b[1..], c[1..]);
    }
  }

  predicate Sorted(s: seq<string>) {
    forall i, j :: 0 <= i < j < |s| ==> Leq(s[i], s[j])
  }

  /** The members of a set in order: sorted(s), or a walk over a std::set. */
  method SortedList(s: set<string>) returns (r: seq<string>)
    ensures Sorted(r) && (forall x :: x in r <==> x in s)
    ensures forall i, j :: 0 <= i < j < |r| ==> r[i] != r[j]
  {
    r := [];
    var rest := s;
    while rest != {}
      invariant rest <= s && Sorted(r) && (forall x :: x in r <==> x in s - rest)
      invariant forall i, j :: 0 <= i < j < |r| ==> r[i] != r[j]
    {
      var x :| x in rest;
      r := InsertSorted(r, x);
      rest := rest - {x};
    }
  }

  method InsertSorted(r: seq<string>, x: string) returns (t: seq<string>)
    requires Sorted(r) && x !in r && forall i, j :: 0 <= i < j < |r| ==> r[i] != r[j]
    ensures Sorted(t) && (forall y :: y in t <==> y == x || y in r)
    ensures forall i, j :: 0 <= i < j < |t| ==> t[i] != t[j]
  {
    var k := 0;
    while k < |r| && Leq(r[k], x)
      invariant k <= |r| && forall i :: 0 <= i < k ==> Leq(r[i], x)
    {
      k := k + 1;
    }
    t := r[..k] + [x] + r[k..];
    if k < |r| {
      LeqTotal(r[k], x);
      forall j | k < j < |r| ensures Leq(x, r[j]) {
        LeqTransitive(x, r[k], r[j]);
      }
    }
  }
}
