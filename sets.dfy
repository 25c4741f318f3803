/** Choosing an element of a non-empty set, as a loop over a Python set or dict does. */
module Sets {
  lemma NonEmpty<T>(s: set<T>)
    requires s != {}
    ensures exists x :: x in s
  {
    if forall x :: x !in s { assert false; }
  }

  /** Some element of `s`, for the ghost witness a `:|` choice needs. */
  lemma Pick<T>(s: set<T>) returns (x: T)
    requires s != {}
    ensures x in s
  {
    NonEmpty(s);
    x :| x in s;
  }

  /** The least element of a non-empty set of integers (a sorted container's first key). */
  lemma {:induction false} Least(s: set<int>) returns (m: int)
    requires s != {}
    ensures m in s && forall k :: k in s ==> m <= k
    decreases |s|
  {
    var x := Pick(s);
    var rest := s - {x};
    if rest == {} {
      m := x;
      forall k | k in s ensures m <= k {
        assert k == x || k in rest;
      }
    } else {
      var r := Least(rest);
      m := if r < x then r else x;
      forall k | k in s ensures m <= k {
        if k != x { assert k in rest; }
      }
    }
  }
}
