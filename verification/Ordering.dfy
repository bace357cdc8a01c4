/**
  The sorted listing of a finite set. `lt` plays the part of an ORDER BY clause
  whose columns identify a row.
 */
module Ordering {

  ghost predicate StrictTotal<T(!new)>(lt: (T, T) -> bool, s: set<T>) {
    && (forall x | x in s :: !lt(x, x))
    && (forall x, y | x in s && y in s && x != y :: lt(x, y) || lt(y, x))
    && (forall x, y, z | x in s && y in s && z in s && lt(x, y) && lt(y, z) :: lt(x, z))
  }

  ghost predicate Ascending<T(!new)>(lt: (T, T) -> bool, xs: seq<T>) {
    forall i, j | 0 <= i < j < |xs| :: lt(xs[i], xs[j])
  }

  /** `xs` holds exactly the elements of `s`, in order. */
  ghost predicate Lists<T(!new)>(lt: (T, T) -> bool, s: set<T>, xs: seq<T>) {
    Ascending(lt, xs) && forall x :: x in s <==> x in xs
  }

  predicate IsLeast<T(==)>(lt: (T, T) -> bool, s: set<T>, m: T) {
    m in s && forall y | y in s :: y == m || lt(m, y)
  }

  lemma {:induction false} HasLeast<T(!new)>(lt: (T, T) -> bool, s: set<T>)
    requires s != {} && StrictTotal(lt, s)
    ensures exists m :: IsLeast(lt, s, m)
  {
    var x :| x in s;
    if s == {x} {
      assert IsLeast(lt, s, x);
    } else {
      var rest := s - {x};
      assert rest != {};
      HasLeast(lt, rest);
      var m :| IsLeast(lt, rest, m);
      if lt(x, m) {
        assert IsLeast(lt, s, x);
      } else {
        assert IsLeast(lt, s, m);
      }
    }
  }

  function Least<T(==, !new)>(lt: (T, T) -> bool, s: set<T>): (m: T)
    requires s != {} && StrictTotal(lt, s)
    ensures IsLeast(lt, s, m)
  {
    HasLeast(lt, s);
    var m :| IsLeast(lt, s, m);
    m
  }

  /** What the publisher answers to an ordered query without a limit. */
  function Sorted<T(==, !new)>(lt: (T, T) -> bool, s: set<T>): seq<T>
    requires StrictTotal(lt, s)
  {
    if s == {} then []
    else
      var m := Least(lt, s);
      [m] + Sorted(lt, s - {m})
  }

  lemma {:induction false} SortedLists<T(!new)>(lt: (T, T) -> bool, s: set<T>)
    requires StrictTotal(lt, s)
    ensures Lists(lt, s, Sorted(lt, s))
    ensures |Sorted(lt, s)| == |s|
  {
    if s != {} {
      var m := Least(lt, s);
      SortedLists(lt, s - {m});
    }
  }

  lemma HasElement<T(!new)>(xs: seq<T>)
    ensures xs == [] || exists x :: x in xs
  {
    if xs != [] {
      assert xs[0] in xs;
    }
  }

  /** The listing of a set is unique, so it suffices to exhibit one. */
  lemma {:induction false} ListingUnique<T(!new)>(lt: (T, T) -> bool, s: set<T>, a: seq<T>, b: seq<T>)
    requires StrictTotal(lt, s) && Lists(lt, s, a) && Lists(lt, s, b)
    ensures a == b
  {
    if s == {} {
      HasElement(a);
      HasElement(b);
    } else {
      var x :| x in s;
      assert a != [] && b != [];
      assert a[0] in s && b[0] in s;
      assert a[0] in b && b[0] in a;
      assert a[0] == b[0];
      var rest := s - {a[0]};
      TailLists(lt, s, a);
      TailLists(lt, s, b);
      ListingUnique(lt, rest, a[1..], b[1..]);
      assert a == [a[0]] + a[1..];
      assert b == [b[0]] + b[1..];
    }
  }

  lemma TailLists<T(!new)>(lt: (T, T) -> bool, s: set<T>, a: seq<T>)
    requires StrictTotal(lt, s) && Lists(lt, s, a) && a != []
    ensures Lists(lt, s - {a[0]}, a[1..])
  {
    forall x ensures x in s - {a[0]} <==> x in a[1..] {
      if x in s - {a[0]} {
        var i :| 0 <= i < |a| && a[i] == x;
        assert a[1..][i - 1] == x;
      }
      if x in a[1..] {
        var i :| 0 <= i < |a[1..]| && a[1..][i] == x;
        assert a[i + 1] == x && lt(a[0], a[i + 1]);
        assert x in a && a[0] in a;
      }
    }
  }

  lemma SortedUnique<T(!new)>(lt: (T, T) -> bool, s: set<T>, xs: seq<T>)
    requires StrictTotal(lt, s) && Lists(lt, s, xs)
    ensures Sorted(lt, s) == xs
  {
    SortedLists(lt, s);
    ListingUnique(lt, s, Sorted(lt, s), xs);
  }

  /** Listing two sets one after the other lists their union when one precedes the other. */
  lemma SortedAppend<T(!new)>(lt: (T, T) -> bool, a: set<T>, b: set<T>)
    requires StrictTotal(lt, a + b)
    requires forall x, y | x in a && y in b :: lt(x, y)
    ensures StrictTotal(lt, a) && StrictTotal(lt, b)
    ensures Sorted(lt, a + b) == Sorted(lt, a) + Sorted(lt, b)
  {
    var xs, ys := Sorted(lt, a), Sorted(lt, b);
    SortedLists(lt, a);
    SortedLists(lt, b);
    forall i, j | 0 <= i < j < |xs + ys| ensures lt((xs + ys)[i], (xs + ys)[j]) {
      if i < |xs| <= j {
        assert xs[i] in a && ys[j - |xs|] in b;
      }
    }
    SortedUnique(lt, a + b, xs + ys);
  }

  /** Keyset paging: what follows the k-th element of a listing lists the elements beyond it. */
  lemma SortedAfter<T(!new)>(lt: (T, T) -> bool, s: set<T>, k: nat, beyond: set<T>)
    requires StrictTotal(lt, s) && k < |Sorted(lt, s)|
    requires forall y :: y in beyond <==> y in s && lt(Sorted(lt, s)[k], y)
    ensures StrictTotal(lt, beyond) && Sorted(lt, beyond) == Sorted(lt, s)[k + 1..]
    ensures Sorted(lt, s)[k] in s && Sorted(lt, s)[k] !in beyond
  {
    var xs := Sorted(lt, s);
    SortedLists(lt, s);
    assert xs[k] in xs;
    forall y ensures y in beyond <==> y in xs[k + 1..] {
      assert xs[k] in s;
      if y in beyond {
        var i :| 0 <= i < |xs| && xs[i] == y;
        assert i > k;
        assert xs[k + 1..][i - (k + 1)] == y;
      }
      if y in xs[k + 1..] {
        var i :| 0 <= i < |xs[k + 1..]| && xs[k + 1..][i] == y;
        assert xs[i + k + 1] == y && lt(xs[k], xs[i + k + 1]);
        assert y in xs;
      }
    }
    SortedUnique(lt, beyond, xs[k + 1..]);
  }
}
