/** Finite sets. */
module Sets {
  function ToSet<T(==)>(s: seq<T>): set<T> {
    set x | x in s
  }

  lemma {:induction false} NoMoreThanListed<T>(s: seq<T>)
    ensures |ToSet(s)| <= |s|
  {
    if s != [] {
      NoMoreThanListed(s[1..]);
      assert ToSet(s) == ToSet(s[1..]) + {s[0]};
    }
  }

  lemma {:induction false} SubsetIsSmaller<T>(a: set<T>, b: set<T>)
    requires a <= b
    ensures |a| <= |b|
    ensures a != b ==> |a| < |b|
  {
    if a != {} {
      var x :| x in a;
      SubsetIsSmaller(a - {x}, b - {x});
    }
  }
}
