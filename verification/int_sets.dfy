/** Least elements and the ascending enumeration of finite sets of integers. */
module IntSets {
  predicate IsLeast(m: int, s: set<int>) {
    m in s && forall x :: x in s ==> m <= x
  }

  lemma LeastExists(s: set<int>)
    requires s != {}
    ensures exists m :: IsLeast(m, s)
  {
    var x := Pick(s);
    LeastBelow(s, x);
  }

  /** Some element of a non-empty set. */
  lemma Pick<T>(s: set<T>) returns (x: T)
    requires s != {}
    ensures x in s
  {
    x :| x in s;
  }

  /** A finite set holding `x` has a least element. */
  lemma {:induction false} LeastBelow(s: set<int>, x: int)
    requires x in s
    ensures exists m :: IsLeast(m, s)
    decreases |s|
  {
    if s != {x} {
      var y := Pick(s - {x});
      LeastBelow(s - {x}, y);
      var m :| IsLeast(m, s - {x});
      var least := if x < m then x else m;
      forall z | z in s
        ensures least <= z
      {
        if z != x {
          assert z in s - {x};
        }
      }
      assert IsLeast(least, s);
    } else {
      assert IsLeast(x, s);
    }
  }

  /** The elements of `s` in ascending order. */
  ghost function Ascending(s: set<int>): (r: seq<int>)
    ensures |r| == |s|
    ensures forall x :: x in s <==> x in r
    ensures forall i :: 0 <= i < |r| ==> r[i] in s
    ensures forall i, j :: 0 <= i < j < |r| ==> r[i] < r[j]
    decreases |s|
  {
    if s == {} then []
    else
      LeastExists(s);
      var m :| IsLeast(m, s);
      var rest := Ascending(s - {m});
      LeastThenRest(s, m, rest);
      [m] + rest
  }

  /** Putting the least element in front of an ascending enumeration of the
      others enumerates the whole set in ascending order. */
  lemma LeastThenRest(s: set<int>, m: int, rest: seq<int>)
    requires IsLeast(m, s)
    requires |rest| == |s - {m}|
    requires forall x :: x in s - {m} <==> x in rest
    requires forall i, j :: 0 <= i < j < |rest| ==> rest[i] < rest[j]
    ensures var r := [m] + rest;
            && |r| == |s|
            && (forall x :: x in s <==> x in r)
            && (forall i :: 0 <= i < |r| ==> r[i] in s)
            && (forall i, j :: 0 <= i < j < |r| ==> r[i] < r[j])
  {
    var r := [m] + rest;
    assert r[0] == m && r[1..] == rest;
    forall i | 0 <= i < |rest|
      ensures m < rest[i] && rest[i] in s
    {
      assert rest[i] in s - {m};
    }
    forall i | 0 <= i < |r|
      ensures r[i] in s
    {
      if i > 0 {
        assert r[i] == r[1..][i - 1];
      }
    }
    forall i, j | 0 <= i < j < |r|
      ensures r[i] < r[j]
    {
      assert r[j] == r[1..][j - 1];
      if i > 0 {
        assert r[i] == r[1..][i - 1];
      }
    }
  }

  lemma AscendingFirst(s: set<int>, m: int)
    requires IsLeast(m, s)
    ensures Ascending(s) == [m] + Ascending(s - {m})
  {
  }
}
