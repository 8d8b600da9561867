/** What several modules need and no one owns: optional values and the size of sets. */
module Wrappers {
  datatype Option<T> = None | Some(value: T)

  lemma {:induction false} SubsetSize<T>(a: set<T>, b: set<T>)
    requires a <= b
    ensures |a| <= |b|
  {
    if a != {} {
      var x :| x in a;
      SubsetSize(a - {x}, b - {x});
    }
  }

  lemma ProperSubsetSize<T>(a: set<T>, b: set<T>)
    requires a < b
    ensures |a| < |b|
  {
    var x :| x in b && x !in a;
    SubsetSize(a + {x}, b);
  }

  lemma SingletonIs<T>(s: set<T>, x: T)
    requires |s| == 1 && x in s
    ensures s == {x}
  {
    forall y | y in s ensures y == x {
      if y != x { SubsetSize({x, y}, s); }
    }
  }
}
