/** Sums of group elements over finite sets of user identities: the
    homomorphic aggregate of a set of registrants' contributions. */
module Sums {

  /** Some element of a non-empty set. */
  ghost function Pick(s: set<int>): int
    requires s != {}
  {
    assert (forall x :: x !in s) ==> s == {};
    var x :| x in s; x
  }

  /** The sum of f(u) over every u in s. */
  ghost function SumOver(s: set<int>, f: int -> int): int
    decreases s
  {
    if s == {} then 0 else var x := Pick(s); f(x) + SumOver(s - {x}, f)
  }

  /** Any element may be taken out of the sum first. */
  lemma {:induction false} SumOverRemove(s: set<int>, f: int -> int, y: int)
    requires y in s
    ensures SumOver(s, f) == f(y) + SumOver(s - {y}, f)
    decreases s
  {
    var x := Pick(s);
    if y != x {
      SumOverRemove(s - {x}, f, y);
      SumOverRemove(s - {y}, f, x);
      assert s - {x} - {y} == s - {y} - {x};
    }
  }

  /** The sum over a disjoint union is the sum of the sums. */
  lemma {:induction false} SumOverUnion(a: set<int>, b: set<int>, f: int -> int)
    requires a !! b
    ensures SumOver(a + b, f) == SumOver(a, f) + SumOver(b, f)
    decreases a
  {
    if a == {} {
      assert a + b == b;
    } else {
      var x := Pick(a);
      SumOverRemove(a + b, f, x);
      assert (a + b) - {x} == (a - {x}) + b;
      SumOverUnion(a - {x}, b, f);
    }
  }

  /** Summands that agree on s give the same sum. */
  lemma {:induction false} SumOverCongruent(s: set<int>, f: int -> int, g: int -> int)
    requires forall u :: u in s ==> f(u) == g(u)
    ensures SumOver(s, f) == SumOver(s, g)
    decreases s
  {
    if s != {} {
      SumOverCongruent(s - {Pick(s)}, f, g);
    }
  }

  /** A sum whose summands all vanish except possibly at y. */
  lemma {:induction false} SumOverSingleSupport(s: set<int>, f: int -> int, y: int)
    requires forall u :: u in s && u != y ==> f(u) == 0
    ensures SumOver(s, f) == if y in s then f(y) else 0
    decreases s
  {
    if s != {} {
      var x := Pick(s);
      SumOverSingleSupport(s - {x}, f, y);
    }
  }

  /** Sums are linear: scaling one sum and subtracting another is summing the
      scaled differences. */
  lemma {:induction false} SumOverLinear(s: set<int>, f: int -> int, g: int -> int, h: int -> int, c: int)
    requires forall u :: u in s ==> h(u) == f(u) * c - g(u)
    ensures SumOver(s, h) == SumOver(s, f) * c - SumOver(s, g)
    decreases s
  {
    if s != {} {
      var x := Pick(s);
      SumOverLinear(s - {x}, f, g, h, c);
      assert SumOver(s, f) * c == f(x) * c + SumOver(s - {x}, f) * c;
    }
  }
}
