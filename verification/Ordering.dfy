/** Strictly sorted sequences: they are determined by their elements, and a sort produces one. */
module Ordering {

  ghost predicate StrictTotal<T(!new)>(less: (T, T) -> bool) {
    && (forall x :: !less(x, x))
    && (forall x, y, z :: less(x, y) && less(y, z) ==> less(x, z))
    && (forall x, y :: x == y || less(x, y) || less(y, x))
  }

  ghost predicate Ascending<T>(less: (T, T) -> bool, s: seq<T>) {
    forall i, j :: 0 <= i < j < |s| ==> less(s[i], s[j])
  }

  function Insert<T(==)>(less: (T, T) -> bool, x: T, s: seq<T>): seq<T> {
    if s == [] then [x]
    else if x == s[0] then s
    else if less(x, s[0]) then [x] + s
    else [s[0]] + Insert(less, x, s[1..])
  }

  /** Sorting and then dropping equal neighbours. */
  function SortUnique<T(==)>(less: (T, T) -> bool, s: seq<T>): seq<T> {
    if s == [] then [] else Insert(less, s[0], SortUnique(less, s[1..]))
  }

  lemma {:induction false} InsertAscending<T(!new)>(less: (T, T) -> bool, x: T, s: seq<T>)
    requires StrictTotal(less) && Ascending(less, s)
    ensures Ascending(less, Insert(less, x, s))
    ensures forall y :: y in Insert(less, x, s) <==> y == x || y in s
  {
    if s != [] && x != s[0] && !less(x, s[0]) {
      InsertAscending(less, x, s[1..]);
      var rest := Insert(less, x, s[1..]);
      forall y | y in rest ensures less(s[0], y) {
        if y != x {
          assert y in s[1..];
        }
      }
    }
  }

  lemma {:induction false} SortUniqueAscending<T(!new)>(less: (T, T) -> bool, s: seq<T>)
    requires StrictTotal(less)
    ensures Ascending(less, SortUnique(less, s))
    ensures forall y :: y in SortUnique(less, s) <==> y in s
  {
    if s != [] {
      SortUniqueAscending(less, s[1..]);
      InsertAscending(less, s[0], SortUnique(less, s[1..]));
    }
  }

  lemma HeadsAgree<T(!new)>(less: (T, T) -> bool, a: seq<T>, b: seq<T>)
    requires StrictTotal(less) && Ascending(less, a) && Ascending(less, b)
    requires forall x :: x in a <==> x in b
    requires a != [] && b != []
    ensures a[0] == b[0]
  {
    if less(a[0], b[0]) {
      assert a[0] in b;
    } else if less(b[0], a[0]) {
      assert b[0] in a;
    }
  }

  /** Two ascending sequences with the same elements are the same sequence. */
  lemma {:induction false} AscendingUnique<T(!new)>(less: (T, T) -> bool, a: seq<T>, b: seq<T>)
    requires StrictTotal(less) && Ascending(less, a) && Ascending(less, b)
    requires forall x :: x in a <==> x in b
    ensures a == b
  {
    assert b != [] ==> b[0] in a;
    if a != [] {
      assert a[0] in b;
      HeadsAgree(less, a, b);
      forall x ensures x in a[1..] <==> x in b[1..] {
        assert x in a[1..] <==> x in a && less(a[0], x);
        assert x in b[1..] <==> x in b && less(b[0], x);
      }
      AscendingUnique(less, a[1..], b[1..]);
      assert a == [a[0]] + a[1..] && b == [b[0]] + b[1..];
    }
  }
}
