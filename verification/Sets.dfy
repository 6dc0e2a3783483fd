/** Facts about finite sets that other modules need. */
module Sets {

  lemma {:induction false} SubsetSize<T>(a: set<T>, b: set<T>)
    requires a <= b
    ensures |a| <= |b|
  {
    if a != {} {
      var x :| x in a;
      SubsetSize(a - {x}, b - {x});
    }
  }

  /** `b` is the image of `a` under `f`, which is injective there. */
  lemma {:induction false} ImageSize<T, U>(a: set<T>, b: set<U>, f: T -> U)
    requires b == set x | x in a :: f(x)
    requires forall x, y :: x in a && y in a && f(x) == f(y) ==> x == y
    ensures |b| == |a|
  {
    if a != {} {
      var x :| x in a;
      var rest := set y | y in a - {x} :: f(y);
      ImageSize(a - {x}, rest, f);
      assert b == rest + {f(x)} && f(x) !in rest;
    }
  }
}
