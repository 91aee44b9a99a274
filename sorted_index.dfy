/**
 * The ascending listing of a set of numbers: `[...set].sort(sortAsc)` on a
 * JavaScript `Set` of season or episode numbers.
 */
module SortedIndex {

  /** Each element is smaller than every later one (so there are no duplicates). */
  ghost predicate StrictlyIncreasing(s: seq<int>)
  {
    forall i, j :: 0 <= i < j < |s| ==> s[i] < s[j]
  }

  /** `m` is the smallest element of `s`. */
  ghost predicate IsLeast(m: int, s: set<int>)
  {
    m in s && forall x :: x in s ==> m <= x
  }

  /** A set with no element is the empty set. */
  lemma EmptyWithoutElements(s: set<int>)
    requires forall y :: y !in s
    ensures s == {}
  {
    assert forall y :: y in s <==> y in {};
  }

  /** A non-empty set has an element to pick. */
  lemma HasElement(s: set<int>)
    requires s != {}
    ensures exists y :: y in s
  {
    if forall y :: y !in s {
      EmptyWithoutElements(s);
      assert false;
    }
  }

  /** Every non-empty finite set of numbers has a smallest element. */
  lemma {:induction false} LeastExists(s: set<int>)
    requires s != {}
    ensures exists m :: IsLeast(m, s)
    decreases |s|
  {
    HasElement(s);
    var y :| y in s;
    if s != {y} {
      LeastExists(s - {y});
      var m :| IsLeast(m, s - {y});
      assert forall x :: x in s ==> x == y || x in s - {y};
      if y < m {
        assert IsLeast(y, s);
      } else {
        assert IsLeast(m, s);
      }
    } else {
      assert IsLeast(y, s);
    }
  }

  /**
   * The elements of `s`, smallest first: the only strictly increasing
   * sequence whose elements are those of `s`.
   */
  ghost function Ascending(s: set<int>): (r: seq<int>)
    ensures StrictlyIncreasing(r)
    ensures forall x :: x in r <==> x in s
    decreases |s|
  {
    if s == {} then []
    else
      LeastExists(s);
      var m :| IsLeast(m, s);
      var rest := Ascending(s - {m});
      assert forall x :: x in rest ==> m < x;
      [m] + rest
  }

  /**
   * Taking the smallest element off the front leaves the listing of the rest,
   * so a listed prefix can be extended by the least remaining element.
   */
  lemma AscendingUnfold(done: seq<int>, s: set<int>, m: int)
    requires IsLeast(m, s)
    ensures done + Ascending(s) == (done + [m]) + Ascending(s - {m})
  {
    var r := Ascending(s);
    assert r != [] && r == [r[0]] + Ascending(s - {r[0]});
    assert m in r;
    assert r[0] == m;
  }

  /** The smallest element of a non-empty set, found by one pass over it. */
  method Least(s: set<int>) returns (m: int)
    requires s != {}
    ensures IsLeast(m, s)
  {
    HasElement(s);
    m :| m in s;
    var unseen := s - {m};
    while unseen != {}
      invariant unseen <= s && m in s
      invariant forall x :: x in s && x !in unseen ==> m <= x
      decreases |unseen|
    {
      HasElement(unseen);
      var x :| x in unseen;
      if x < m {
        m := x;
      }
      unseen := unseen - {x};
    }
  }

  /** `[...s].sort(sortAsc)`: the numbers of `s` in ascending order. */
  method SortAsc(s: set<int>) returns (r: seq<int>)
    ensures r == Ascending(s)
  {
    r := [];
    var rest := s;
    while rest != {}
      invariant r + Ascending(rest) == Ascending(s)
      decreases |rest|
    {
      var m := Least(rest);
      AscendingUnfold(r, rest, m);
      r := r + [m];
      rest := rest - {m};
    }
  }
}
