/** Strings in code-point order, and sorted() of a set of them. */
module StringOrder {

  predicate Less(a: string, b: string) {
    b != "" && (a == "" || a[0] < b[0] || (a[0] == b[0] && Less(a[1..], b[1..])))
  }

  lemma {:induction false} LessIsTransitive(a: string, b: string, c: string)
    requires Less(a, b) && Less(b, c)
    ensures Less(a, c)
  {
    if a != "" && a[0] == b[0] && b[0] == c[0] {
      LessIsTransitive(a[1..], b[1..], c[1..]);
    }
  }

  lemma {:induction false} LessIsIrreflexive(a: string)
    ensures !Less(a, a)
  {
    if a != "" {
      LessIsIrreflexive(a[1..]);
    }
  }

  lemma {:induction false} LessIsTotal(a: string, b: string)
    ensures a == b || Less(a, b) || Less(b, a)
  {
    if a != "" && b != "" && a[0] == b[0] {
      LessIsTotal(a[1..], b[1..]);
      assert a[1..] == b[1..] ==> a == [a[0]] + a[1..] == [b[0]] + b[1..] == b;
    }
  }

  // Either a begins b, or the first character that differs is the smaller one.
  lemma {:induction false} LessIsLexicographic(a: string, b: string)
    ensures Less(a, b) <==>
              exists k: nat ::
                && k <= |a| && k < |b| && a[..k] == b[..k]
                && (k == |a| || a[k] < b[k])
  {
    if b != "" {
      if a == "" || a[0] < b[0] {
        assert a[..0] == b[..0];
      } else if a[0] == b[0] {
        LessIsLexicographic(a[1..], b[1..]);
        LongerByOne(a, b);
      } else {
        assert forall k: nat :: 0 < k <= |a| && k < |b| ==> a[..k][0] == a[0] && b[..k][0] == b[0];
      }
    }
  }

  lemma LongerByOne(a: string, b: string)
    requires a != "" && b != "" && a[0] == b[0]
    ensures (exists k: nat :: k <= |a| && k < |b| && a[..k] == b[..k] && (k == |a| || a[k] < b[k]))
            <==> (exists k: nat ::
                    && k <= |a[1..]| && k < |b[1..]| && a[1..][..k] == b[1..][..k]
                    && (k == |a[1..]| || a[1..][k] < b[1..][k]))
  {
    if k: nat :| k <= |a| && k < |b| && a[..k] == b[..k] && (k == |a| || a[k] < b[k]) {
      assert k > 0;
      assert a[1..][..k - 1] == a[..k][1..] && b[1..][..k - 1] == b[..k][1..];
    }
    if k: nat :| && k <= |a[1..]| && k < |b[1..]| && a[1..][..k] == b[1..][..k]
                 && (k == |a[1..]| || a[1..][k] < b[1..][k]) {
      assert a[..k + 1] == [a[0]] + a[1..][..k] && b[..k + 1] == [b[0]] + b[1..][..k];
    }
  }

  ghost predicate Increasing(s: seq<string>) {
    forall j, k :: 0 <= j < k < |s| ==> Less(s[j], s[k])
  }

  // sorted(elements)
  ghost predicate SortedFrom(s: seq<string>, elements: set<string>) {
    Increasing(s) && forall x :: x in s <==> x in elements
  }

  // A set has only one sorted list.
  lemma {:induction false} SortedIsUnique(s: seq<string>, t: seq<string>, elements: set<string>)
    requires SortedFrom(s, elements) && SortedFrom(t, elements)
    ensures s == t
  {
    assert t != [] ==> t[0] in t;
    if s != [] {
      assert s[0] in s && s[0] in t;
      assert t[0] in s;
      var j :| 0 <= j < |t| && t[j] == s[0];
      var k :| 0 <= k < |s| && s[k] == t[0];
      if j > 0 {
        // then s[0] < ... < s[k] == t[0] < t[j] == s[0]
        if k > 0 {
          LessIsTransitive(s[0], s[k], t[j]);
        }
        LessIsIrreflexive(s[0]);
      }
      assert s[0] == t[0];
      WithoutFirst(s, elements);
      WithoutFirst(t, elements);
      SortedIsUnique(s[1..], t[1..], elements - {s[0]});
    }
  }

  lemma WithoutFirst(s: seq<string>, elements: set<string>)
    requires s != [] && SortedFrom(s, elements)
    ensures SortedFrom(s[1..], elements - {s[0]})
  {
    LessIsIrreflexive(s[0]);
    forall x
      ensures x in s[1..] <==> x in elements - {s[0]}
    {
      if x in s[1..] {
        var k :| 0 < k < |s| && s[k] == x;
        assert Less(s[0], s[k]);
      }
      if x in elements && x != s[0] {
        var k :| 0 <= k < |s| && s[k] == x;
        assert s[1..][k - 1] == x;
      }
    }
  }

  method Least(elements: set<string>) returns (least: string)
    requires elements != {}
    ensures least in elements && forall x :: x in elements && x != least ==> Less(least, x)
  {
    least :| least in elements;
    var rest := elements - {least};
    while rest != {}
      invariant rest <= elements && least in elements
      invariant forall x :: x in elements - rest && x != least ==> Less(least, x)
      decreases rest
    {
      var x :| x in rest;
      LessIsTotal(x, least);
      if Less(x, least) {
        forall y | y in elements - rest && y != least
          ensures Less(x, y)
        {
          LessIsTransitive(x, least, y);
        }
        least := x;
      }
      rest := rest - {x};
    }
  }

  method Sorted(elements: set<string>) returns (s: seq<string>)
    ensures SortedFrom(s, elements) && |s| == |elements|
  {
    s := [];
    var rest := elements;
    while rest != {}
      invariant rest <= elements && |s| + |rest| == |elements| && Increasing(s)
      invariant forall x :: x in s <==> x in elements - rest
      invariant forall k, x :: 0 <= k < |s| && x in rest ==> Less(s[k], x)
      decreases rest
    {
      var least := Least(rest);
      s := s + [least];
      rest := rest - {least};
    }
  }
}
