/** Finite sets and lists of integers. */
module Sets {
  ghost predicate Distinct(s: seq<int>) {
    forall i, j :: 0 <= i < j < |s| ==> s[i] != s[j]
  }

  lemma Inhabited(s: set<int>)
    ensures s == {} || exists b :: b in s
  {
    if forall a :: a !in s {
      assert s == {};
    }
  }

  lemma {:induction false} LeastExists(s: set<int>)
    requires s != {}
    ensures exists b :: b in s && forall x :: x in s ==> b <= x
    decreases |s|
  {
    Inhabited(s);
    var a :| a in s;
    if s != {a} {
      var rest := s - {a};
      LeastExists(rest);
      var b :| b in rest && forall x :: x in rest ==> b <= x;
      var m := if a < b then a else b;
      forall x | x in s ensures m <= x { assert x == a || x in rest; }
      assert m in s;
    }
  }

  lemma {:induction false} Bounded(s: set<int>) returns (top: int)
    ensures forall x :: x in s ==> x < top
    decreases |s|
  {
    if x :| x in s {
      top := Bounded(s - {x});
      if top <= x { top := x + 1; }
      assert s == (s - {x}) + {x};
    } else {
      top := 0;
    }
  }

  // ----- grouping of concatenations -----

  lemma GroupRight(a: seq<int>, b: seq<int>, c: seq<int>, d: seq<int>, e: seq<int>)
    ensures a + (b + c + d) + e == a + b + (c + d + e)
  {
  }

  lemma GroupLeft(a: seq<int>, b: seq<int>, c: seq<int>, d: seq<int>, e: seq<int>)
    ensures a + (b + c + d) + e == a + b + c + d + e
  {
  }

  lemma GroupMid(a: seq<int>, b: seq<int>, c: seq<int>, d: seq<int>, e: seq<int>)
    ensures a + (b + c + d) + e == a + b + c + (d + e)
  {
  }
}
