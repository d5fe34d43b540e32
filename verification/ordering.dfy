/**
 * Sorting documents by one string key, ascending or descending, as the `$sort`
 * stage of the pagination pipeline does. The source gives equal keys no
 * secondary order; the sort here keeps them in store order, which is one of
 * the orders the store may produce.
 */
module Ordering {
  import opened Strings
  import opened Cursors

  /** `a` sorts strictly before `b` in the given order. */
  predicate Before(order: Order, a: string, b: string) {
    match order
    case Asc => Less(a, b)
    case Desc => Less(b, a)
  }

  function Flip(order: Order): (r: Order)
    ensures r != order
  {
    match order
    case Asc => Desc
    case Desc => Asc
  }

  lemma FlipBefore(order: Order, a: string, b: string)
    ensures Before(Flip(order), a, b) <==> Before(order, b, a)
  {
  }

  lemma BeforeIrreflexive(order: Order, a: string)
    ensures !Before(order, a, a)
  {
    LessIrreflexive(a);
  }

  lemma BeforeTransitive(order: Order, a: string, b: string, c: string)
    requires Before(order, a, b) && Before(order, b, c)
    ensures Before(order, a, c)
  {
    match order
    case Asc => LessTransitive(a, b, c);
    case Desc => LessTransitive(c, b, a);
  }

  lemma BeforeTotal(order: Order, a: string, b: string)
    ensures a == b || Before(order, a, b) || Before(order, b, a)
  {
    LessTotal(a, b);
  }

  lemma BeforeAsymmetric(order: Order, a: string, b: string)
    requires Before(order, a, b)
    ensures !Before(order, b, a)
  {
    match order
    case Asc => LessAsymmetric(a, b);
    case Desc => LessAsymmetric(b, a);
  }

  /** "Not after" is transitive: a <= b and b <= c give a <= c. */
  lemma NotAfterTransitive(order: Order, a: string, b: string, c: string)
    requires !Before(order, b, a) && !Before(order, c, b)
    ensures !Before(order, c, a)
  {
    if Before(order, c, a) {
      BeforeTotal(order, a, b);
      if a == b {
      } else if Before(order, a, b) {
        BeforeTransitive(order, c, a, b);
      }
    }
  }

  /** a <= b and b < c give a < c. */
  lemma NotAfterThenBefore(order: Order, a: string, b: string, c: string)
    requires !Before(order, b, a) && Before(order, b, c)
    ensures Before(order, a, c)
  {
    BeforeTotal(order, a, b);
    if a != b {
      BeforeTransitive(order, a, b, c);
    }
  }

  /** a < b and b <= c give a < c. */
  lemma BeforeThenNotAfter(order: Order, a: string, b: string, c: string)
    requires Before(order, a, b) && !Before(order, c, b)
    ensures Before(order, a, c)
  {
    BeforeTotal(order, b, c);
    if b != c {
      BeforeTransitive(order, a, b, c);
    }
  }

  ghost predicate SortedBy<T>(s: seq<T>, key: T -> string, order: Order) {
    forall i, j :: 0 <= i < j < |s| ==> !Before(order, key(s[j]), key(s[i]))
  }

  /** Inserts `x` before the first element that sorts strictly after it. */
  function InsertSorted<T>(x: T, s: seq<T>, key: T -> string, order: Order): (r: seq<T>)
    requires SortedBy(s, key, order)
    ensures SortedBy(r, key, order)
    ensures multiset(r) == multiset(s) + multiset{x}
    ensures |r| == |s| + 1
    decreases |s|
  {
    if |s| == 0 then [x]
    else if Before(order, key(x), key(s[0])) then
      var r := [x] + s;
      assert SortedBy(r, key, order) by {
        forall i, j | 0 <= i < j < |r|
          ensures !Before(order, key(r[j]), key(r[i]))
        {
          if i == 0 {
            assert r[j] == s[j - 1];
            if j - 1 > 0 {
              assert !Before(order, key(s[j - 1]), key(s[0]));
              if Before(order, key(s[j - 1]), key(x)) {
                BeforeTransitive(order, key(s[j - 1]), key(x), key(s[0]));
              }
            } else {
              BeforeAsymmetric(order, key(x), key(s[0]));
            }
          }
        }
      }
      assert s == s[..];
      r
    else
      var rest := InsertSorted(x, s[1..], key, order);
      var r := [s[0]] + rest;
      assert SortedBy(r, key, order) by {
        forall j | 0 < j < |r|
          ensures !Before(order, key(r[j]), key(s[0]))
        {
          var y := r[j];
          assert y in multiset(rest);
          assert y in multiset(s[1..]) || y == x;
          if y != x {
            var k :| 0 <= k < |s[1..]| && s[1..][k] == y;
            assert s[k + 1] == y;
          }
        }
      }
      assert s == [s[0]] + s[1..];
      r
  }

  /** Insertion sort; equal keys keep their relative order. */
  function SortBy<T>(s: seq<T>, key: T -> string, order: Order): (r: seq<T>)
    ensures SortedBy(r, key, order)
    ensures multiset(r) == multiset(s)
    ensures |r| == |s|
    decreases |s|
  {
    if |s| == 0 then []
    else
      var init := s[..|s| - 1];
      assert s == init + [s[|s| - 1]];
      InsertSorted(s[|s| - 1], SortBy(init, key, order), key, order)
  }
}
