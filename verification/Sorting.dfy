/** Sorting by a strict total order, as `sort.Strings` and `sort.Slice` are used by the aggregator. */
module Sorting {

  ghost predicate StrictTotalOrder<T(!new)>(less: (T, T) -> bool) {
    && (forall x :: !less(x, x))
    && (forall x, y :: x == y || less(x, y) || less(y, x))
    && (forall x, y, z :: less(x, y) && less(y, z) ==> less(x, z))
  }

  /** Every element is strictly below the next one; with a transitive order, below every later one. */
  ghost predicate Increasing<T>(less: (T, T) -> bool, s: seq<T>) {
    forall i, j :: 0 <= i < j < |s| ==> less(s[i], s[j])
  }

  /** The elements of a sequence. */
  function Elements<T>(s: seq<T>): set<T> {
    set x | x in s
  }

  lemma FirstElement<T>(s: seq<T>)
    ensures s != [] ==> s[0] in Elements(s)
  {
  }

  /** No element is below an earlier one; equal elements may repeat. */
  ghost predicate Ascending<T>(less: (T, T) -> bool, s: seq<T>) {
    forall i, j :: 0 <= i < j < |s| ==> !less(s[j], s[i])
  }

  ghost predicate Distinct<T(!new)>(s: seq<T>) {
    forall i, j :: 0 <= i < j < |s| ==> s[i] != s[j]
  }

  lemma AscendingCons<T(!new)>(less: (T, T) -> bool, x: T, s: seq<T>)
    requires Ascending(less, s) && forall y :: y in s ==> !less(y, x)
    ensures Ascending(less, [x] + s)
  {
  }

  /** What is not above the first element is above none. */
  lemma BelowAll<T(!new)>(less: (T, T) -> bool, x: T, s: seq<T>)
    requires StrictTotalOrder(less) && Ascending(less, s) && s != [] && !less(s[0], x)
    ensures forall y :: y in s ==> !less(y, x)
  {
    forall y | y in s ensures !less(y, x) {
      var k :| 0 <= k < |s| && s[k] == y;
      assert y == s[0] || less(s[0], y);
      assert x == s[0] || less(x, s[0]);
    }
  }

  lemma InsertedRest<T(!new)>(less: (T, T) -> bool, s: seq<T>, x: T, rest: seq<T>)
    requires StrictTotalOrder(less) && Ascending(less, s) && s != [] && less(s[0], x)
    requires multiset(rest) == multiset(s[1..]) + multiset{x} && Ascending(less, rest)
    ensures multiset([s[0]] + rest) == multiset(s) + multiset{x} && Ascending(less, [s[0]] + rest)
  {
    assert s == [s[0]] + s[1..];
    forall y | y in rest ensures !less(y, s[0]) {
      assert y in multiset(rest);
    }
    AscendingCons(less, s[0], rest);
  }

  /** Puts an element before the first one that is not below it. */
  function Insert<T(!new, ==)>(less: (T, T) -> bool, s: seq<T>, x: T): (r: seq<T>)
    requires StrictTotalOrder(less) && Ascending(less, s)
    ensures multiset(r) == multiset(s) + multiset{x}
    ensures Ascending(less, r)
  {
    if s == [] then [x]
    else if !less(s[0], x) then
      BelowAll(less, x, s);
      AscendingCons(less, x, s);
      [x] + s
    else
      var rest := Insert(less, s[1..], x);
      InsertedRest(less, s, x, rest);
      [s[0]] + rest
  }

  /** The ascending permutation of a sequence. */
  function Sort<T(!new, ==)>(less: (T, T) -> bool, s: seq<T>): (r: seq<T>)
    requires StrictTotalOrder(less)
    ensures multiset(r) == multiset(s)
    ensures Ascending(less, r)
  {
    if s == [] then []
    else
      assert s == [s[0]] + s[1..];
      Insert(less, Sort(less, s[1..]), s[0])
  }

  lemma {:induction false} CountOfDistinct<T(!new)>(s: seq<T>, x: T)
    requires Distinct(s)
    ensures multiset(s)[x] <= 1
  {
    if s != [] {
      assert s == [s[0]] + s[1..];
      CountOfDistinct(s[1..], x);
    }
  }

  lemma CountedTwice<T>(s: seq<T>, i: nat, j: nat)
    requires i < j < |s| && s[i] == s[j]
    ensures multiset(s)[s[i]] >= 2
  {
    assert s == s[..j] + s[j..] && s[..j][i] == s[i] && s[j..][0] == s[i];
    assert s[i] in multiset(s[..j]) && s[i] in multiset(s[j..]);
  }

  /** Sorting what has no duplicates makes it strictly increasing. */
  lemma SortDistinct<T(!new)>(less: (T, T) -> bool, s: seq<T>)
    requires StrictTotalOrder(less) && Distinct(s)
    ensures Increasing(less, Sort(less, s)) && Elements(Sort(less, s)) == Elements(s)
  {
    var r := Sort(less, s);
    forall i, j | 0 <= i < j < |r| ensures less(r[i], r[j]) {
      CountOfDistinct(s, r[i]);
      if r[i] == r[j] {
        CountedTwice(r, i, j);
        assert false;
      }
    }
    forall x ensures x in r <==> x in s {
      assert x in multiset(r) <==> x in multiset(s);
    }
  }

  /** An increasing sequence is determined by its elements. */
  lemma {:induction false} IncreasingUnique<T(!new)>(less: (T, T) -> bool, s: seq<T>, t: seq<T>)
    requires StrictTotalOrder(less)
    requires Increasing(less, s) && Increasing(less, t)
    requires Elements(s) == Elements(t)
    ensures s == t
  {
    if s == [] {
      FirstElement(t);
    } else {
      assert s[0] in Elements(t);
      assert t[0] in Elements(s);
      assert s[0] == t[0];
      assert Elements(s[1..]) == Elements(s) - {s[0]};
      assert Elements(t[1..]) == Elements(t) - {t[0]};
      IncreasingUnique(less, s[1..], t[1..]);
    }
  }

  /** Byte-wise lexicographic order, the order of `sort.Strings`. */
  predicate StringLess(a: string, b: string) {
    if b == "" then false
    else if a == "" then true
    else if a[0] != b[0] then a[0] < b[0]
    else StringLess(a[1..], b[1..])
  }

  /** One string is a proper prefix of the other, or has the smaller byte where they first differ. */
  lemma {:induction false} StringLessIff(a: string, b: string)
    ensures StringLess(a, b) <==>
      a < b || exists k {:trigger a[..k]} :: 0 <= k < |a| && k < |b| && a[..k] == b[..k] && a[k] < b[k]
  {
    if a != "" && b != "" {
      if a[0] == b[0] {
        var c, d := a[1..], b[1..];
        StringLessIff(c, d);
        assert a == [a[0]] + c && b == [a[0]] + d;
        if k :| 0 <= k < |c| && k < |d| && c[..k] == d[..k] && c[k] < d[k] {
          assert a[..k + 1] == [a[0]] + c[..k] && b[..k + 1] == [a[0]] + d[..k];
          assert a[k + 1] < b[k + 1];
        }
        if k :| 0 <= k < |a| && k < |b| && a[..k] == b[..k] && a[k] < b[k] {
          assert k > 0 && c[..k - 1] == a[..k][1..] && d[..k - 1] == b[..k][1..];
        }
      } else {
        assert a[..0] == b[..0];
        assert forall k :: 0 < k <= |a| && k <= |b| ==> a[..k][0] == a[0] && b[..k][0] == b[0];
      }
    }
  }

  lemma {:induction false} StringTrichotomy(a: string, b: string)
    ensures a == b || StringLess(a, b) || StringLess(b, a)
    ensures !(StringLess(a, b) && StringLess(b, a))
    ensures a == b ==> !StringLess(a, b)
  {
    if a != "" && b != "" && a[0] == b[0] {
      StringTrichotomy(a[1..], b[1..]);
      if a[1..] == b[1..] { assert a == [a[0]] + a[1..] && b == [b[0]] + b[1..]; }
    }
  }

  lemma {:induction false} StringTransitive(a: string, b: string, c: string)
    requires StringLess(a, b) && StringLess(b, c)
    ensures StringLess(a, c)
  {
    if a != "" && b != "" && c != "" && a[0] == b[0] && b[0] == c[0] {
      StringTransitive(a[1..], b[1..], c[1..]);
    }
  }

  lemma StringOrder()
    ensures StrictTotalOrder(StringLess)
  {
    forall a, b ensures a == b || StringLess(a, b) || StringLess(b, a) { StringTrichotomy(a, b); }
    forall a: string ensures !StringLess(a, a) { StringTrichotomy(a, a); }
    forall a, b, c | StringLess(a, b) && StringLess(b, c) ensures StringLess(a, c) { StringTransitive(a, b, c); }
  }
}
