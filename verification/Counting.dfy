/** Sizes of finite sets. */
module Counting {

  lemma {:induction false} SubsetSize<T>(a: set<T>, b: set<T>)
    requires a <= b
    ensures |a| <= |b|
  {
    if a != {} {
      var x :| x in a;
      SubsetSize(a - {x}, b - {x});
    }
  }

  lemma {:induction false} Injects<T, U>(a: set<T>, b: set<U>, f: map<T, U>)
    requires f.Keys == a && (forall x :: x in a ==> f[x] in b)
    requires forall x, y :: x in a && y in a && x != y ==> f[x] != f[y]
    ensures |a| <= |b|
  {
    if a != {} {
      var x :| x in a;
      Injects(a - {x}, b - {f[x]}, f - {x});
    }
  }

  ghost function Elements<T>(s: seq<T>): set<T> { set x | x in s }

  ghost predicate NoRepeats<T>(s: seq<T>) {
    forall i, j :: 0 <= i < j < |s| ==> s[i] != s[j]
  }

  /** A sequence without repetitions has as many elements as places. */
  lemma {:induction false} DistinctCount<T>(s: seq<T>)
    requires NoRepeats(s)
    ensures |Elements(s)| == |s|
  {
    if s == [] {
      assert Elements(s) == {};
    } else {
      var last := |s| - 1;
      var less := s[..last];
      DistinctCount(less);
      assert s == less + [s[last]];
      assert Elements(s) == Elements(less) + {s[last]};
      assert s[last] !in less;
    }
  }
}
