/**
 * Strict total orders and the ascending enumeration of a finite set, which is
 * how the source's sorted collections (TreeMap key sets, TreeSets) iterate.
 */
module Ordering {

  ghost predicate StrictTotal<T(!new)>(lt: (T, T) -> bool) {
    && (forall a :: !lt(a, a))
    && (forall a, b, c :: lt(a, b) && lt(b, c) ==> lt(a, c))
    && (forall a, b :: a != b ==> lt(a, b) || lt(b, a))
  }

  predicate IsLeast<T>(m: T, s: set<T>, lt: (T, T) -> bool) {
    m in s && forall x | x in s && x != m :: lt(m, x)
  }

  ghost predicate StrictlySorted<T>(r: seq<T>, lt: (T, T) -> bool) {
    forall i, j | 0 <= i < j < |r| :: lt(r[i], r[j])
  }

  lemma {:induction false} LeastExists<T(!new)>(s: set<T>, lt: (T, T) -> bool)
    requires s != {} && StrictTotal(lt)
    ensures exists m :: IsLeast(m, s, lt)
    decreases |s|
  {
    var x :| x in s;
    if s != {x} {
      LeastExists(s - {x}, lt);
      var m :| IsLeast(m, s - {x}, lt);
      if lt(x, m) {
        forall y | y in s && y != x ensures lt(x, y) {
          if y != m {
            assert lt(m, y);
          }
        }
        assert IsLeast(x, s, lt);
      } else {
        assert IsLeast(m, s, lt);
      }
    } else {
      assert IsLeast(x, s, lt);
    }
  }

  lemma LeastUnique<T(!new)>(m1: T, m2: T, s: set<T>, lt: (T, T) -> bool)
    requires StrictTotal(lt) && IsLeast(m1, s, lt) && IsLeast(m2, s, lt)
    ensures m1 == m2
  {
    assert m1 != m2 ==> lt(m1, m2) && lt(m2, m1);
    assert m1 != m2 ==> lt(m1, m1);
  }

  /** The smallest element of a non-empty set. */
  ghost function Least<T(!new)>(s: set<T>, lt: (T, T) -> bool): (m: T)
    requires s != {} && StrictTotal(lt)
    ensures IsLeast(m, s, lt)
  {
    LeastExists(s, lt);
    var m :| IsLeast(m, s, lt); m
  }

  /** The elements of `s` in ascending order. */
  ghost function InOrder<T(!new)>(s: set<T>, lt: (T, T) -> bool): (r: seq<T>)
    requires StrictTotal(lt)
    ensures |r| == |s|
    ensures forall x :: x in r <==> x in s
    ensures StrictlySorted(r, lt)
    decreases |s|
  {
    if s == {} then []
    else
      var m := Least(s, lt);
      [m] + InOrder(s - {m}, lt)
  }

  /** A strictly sorted sequence holding exactly the elements of `s` is the ascending enumeration of `s`. */
  lemma {:induction false} InOrderUnique<T(!new)>(s: set<T>, lt: (T, T) -> bool, r: seq<T>)
    requires StrictTotal(lt) && StrictlySorted(r, lt)
    requires forall x :: x in r <==> x in s
    ensures InOrder(s, lt) == r
    decreases |r|
  {
    if r != [] {
      SortedHeadLeast(s, lt, r);
      SortedTailElements(s, lt, r);
      SortedTail(r, lt);
      InOrderUnique(s - {r[0]}, lt, r[1..]);
      InOrderStep(s, lt, r[0]);
      assert r == [r[0]] + r[1..];
    }
  }

  lemma SortedHeadLeast<T(!new)>(s: set<T>, lt: (T, T) -> bool, r: seq<T>)
    requires StrictlySorted(r, lt) && r != []
    requires forall x :: x in r <==> x in s
    ensures IsLeast(r[0], s, lt)
  {
    forall x | x in s && x != r[0] ensures lt(r[0], x) {
      var j :| 0 <= j < |r| && r[j] == x;
      assert j != 0;
    }
  }

  lemma SortedTailElements<T(!new)>(s: set<T>, lt: (T, T) -> bool, r: seq<T>)
    requires StrictTotal(lt) && StrictlySorted(r, lt) && r != []
    requires forall x :: x in r <==> x in s
    ensures forall x :: x in r[1..] <==> x in s - {r[0]}
  {
    forall x ensures x in r[1..] <==> x in s - {r[0]} {
      if x in r[1..] {
        var j :| 1 <= j < |r| && r[j] == x;
        assert lt(r[0], r[j]);
      }
      if x in s - {r[0]} {
        var j :| 0 <= j < |r| && r[j] == x;
        assert j != 0;
        assert r[1..][j - 1] == x;
      }
    }
  }

  lemma SortedTail<T>(r: seq<T>, lt: (T, T) -> bool)
    requires StrictlySorted(r, lt) && r != []
    ensures StrictlySorted(r[1..], lt)
  {
    forall i, j | 0 <= i < j < |r[1..]| ensures lt(r[1..][i], r[1..][j]) {
      assert r[1..][i] == r[i + 1] && r[1..][j] == r[j + 1];
    }
  }

  lemma InOrderStep<T(!new)>(s: set<T>, lt: (T, T) -> bool, m: T)
    requires StrictTotal(lt) && IsLeast(m, s, lt)
    ensures InOrder(s, lt) == [m] + InOrder(s - {m}, lt)
  {
    LeastUnique(m, Least(s, lt), s, lt);
  }

  lemma SeqAssoc<T>(a: seq<T>, b: seq<T>, c: seq<T>)
    ensures a + (b + c) == (a + b) + c
  {
  }

  /**
   * The in-order traversal of a sorted collection's key set: repeatedly takes the
   * smallest element that is left.
   */
  method Enumerate<T(!new)>(s: set<T>, lt: (T, T) -> bool) returns (r: seq<T>)
    requires StrictTotal(lt)
    ensures r == InOrder(s, lt)
  {
    r := [];
    var rest := s;
    while rest != {}
      invariant rest <= s
      invariant InOrder(s, lt) == r + InOrder(rest, lt)
      decreases |rest|
    {
      LeastExists(rest, lt);
      var m :| IsLeast(m, rest, lt);
      InOrderStep(rest, lt, m);
      ghost var tail := InOrder(rest - {m}, lt);
      ghost var all := InOrder(s, lt);
      assert all == r + ([m] + tail);
      SeqAssoc(r, [m], tail);
      r := r + [m];
      rest := rest - {m};
    }
  }

  /**
   * Lexicographic order by Unicode scalar value, a proper prefix first. This is Java's
   * String.compareTo for strings below U+10000; above it Java compares UTF-16 code
   * units, which this order does not model.
   */
  predicate StrLt(a: string, b: string)
    decreases |a|
  {
    if a == [] then b != []
    else if b == [] then false
    else if a[0] != b[0] then a[0] < b[0]
    else StrLt(a[1..], b[1..])
  }

  lemma {:induction false} StrLtIrreflexive(a: string)
    ensures !StrLt(a, a)
    decreases |a|
  {
    if a != [] {
      StrLtIrreflexive(a[1..]);
    }
  }

  lemma {:induction false} StrLtTransitive(a: string, b: string, c: string)
    requires StrLt(a, b) && StrLt(b, c)
    ensures StrLt(a, c)
    decreases |a|
  {
    if a != [] && a[0] == b[0] && b[0] == c[0] {
      StrLtTransitive(a[1..], b[1..], c[1..]);
    }
  }

  lemma {:induction false} StrLtTotal(a: string, b: string)
    requires a != b
    ensures StrLt(a, b) || StrLt(b, a)
    decreases |a|
  {
    if a != [] && b != [] && a[0] == b[0] {
      assert a == [a[0]] + a[1..] && b == [b[0]] + b[1..];
      StrLtTotal(a[1..], b[1..]);
    }
  }

  /** Two strings that differ only in their last character compare as those characters do. */
  lemma {:induction false} StrLtCommonPrefix(p: string, c: char, d: char)
    requires c < d
    ensures StrLt(p + [c], p + [d])
    decreases |p|
  {
    if p != [] {
      assert (p + [c])[1..] == p[1..] + [c];
      assert (p + [d])[1..] == p[1..] + [d];
      StrLtCommonPrefix(p[1..], c, d);
    }
  }

  lemma StrLtStrictTotal()
    ensures StrictTotal(StrLt)
  {
    forall a ensures !StrLt(a, a) {
      StrLtIrreflexive(a);
    }
    forall a, b, c | StrLt(a, b) && StrLt(b, c) ensures StrLt(a, c) {
      StrLtTransitive(a, b, c);
    }
    forall a, b | a != b ensures StrLt(a, b) || StrLt(b, a) {
      StrLtTotal(a, b);
    }
  }

  predicate IntLt(a: int, b: int) {
    a < b
  }

  lemma IntLtStrictTotal()
    ensures StrictTotal(IntLt)
  {
  }

  /** The descending order on integers: its least element is the largest one. */
  predicate IntGt(a: int, b: int) {
    a > b
  }

  lemma IntGtStrictTotal()
    ensures StrictTotal(IntGt)
  {
  }
}
