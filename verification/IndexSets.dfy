/** The least of a set of indices. */
module IndexSets {

  /** Least element of a set of indices, or `none` if there is none. */
  ghost function Least(s: set<int>, none: int): (m: int)
    ensures s == {} ==> m == none
    ensures s != {} ==> m in s && forall x :: x in s ==> m <= x
  {
    if s == {} then none
    else
      HasLeast(s);
      var m :| IsLeast(s, m);
      m
  }

  ghost predicate IsLeast(s: set<int>, m: int) {
    m in s && forall x :: x in s ==> m <= x
  }

  lemma Member<T>(s: set<T>) returns (x: T)
    requires s != {}
    ensures x in s
  {
    x :| x in s;
  }

  lemma {:induction false} HasLeast(s: set<int>)
    requires s != {}
    ensures exists m :: IsLeast(s, m)
    decreases |s|
  {
    var x := Member(s);
    var rest := s - {x};
    if rest == {} {
      assert forall y :: y in s && y != x ==> y in rest;
      assert IsLeast(s, x);
    } else {
      HasLeast(rest);
      var y :| IsLeast(rest, y);
      assert forall z :: z in s ==> z == x || z in rest;
      assert IsLeast(s, if x < y then x else y);
    }
  }
}
