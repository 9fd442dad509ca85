/** Finite integer domains shared by the propagators and the clause builder.
    A domain is a finite set of integers; the solver keeps it non-empty, its lower bound
    is the least element, its upper bound the greatest, and a variable is instantiated
    exactly when its domain is a singleton. */
module Domains {

  type Dom = set<int>

  /** Outcome of a domain update: the solver's ContradictionException becomes Wipeout. */
  datatype Update = Wipeout | Updated(dom: Dom, changed: bool)

  /** Every non-empty finite set of integers has a least element. */
  lemma {:induction false} MinExists(d: Dom)
    requires d != {}
    ensures exists m :: m in d && forall x :: x in d ==> m <= x
  {
    NonEmptyHasElement(d);
    var y :| y in d;
    if d - {y} == {} {
      forall x | x in d ensures y <= x {
        assert x !in d - {y};
      }
    } else {
      MinExists(d - {y});
      var m :| m in d - {y} && forall x :: x in d - {y} ==> m <= x;
      var r := if y < m then y else m;
      forall x | x in d ensures r <= x {
        if x != y { assert x in d - {y}; }
      }
    }
  }

  /** Every non-empty finite set of integers has a greatest element. */
  lemma {:induction false} MaxExists(d: Dom)
    requires d != {}
    ensures exists m :: m in d && forall x :: x in d ==> x <= m
  {
    NonEmptyHasElement(d);
    var y :| y in d;
    if d - {y} == {} {
      forall x | x in d ensures x <= y {
        assert x !in d - {y};
      }
    } else {
      MaxExists(d - {y});
      var m :| m in d - {y} && forall x :: x in d - {y} ==> x <= m;
      var r := if y > m then y else m;
      forall x | x in d ensures x <= r {
        if x != y { assert x in d - {y}; }
      }
    }
  }

  /** A non-empty set has an element. */
  lemma NonEmptyHasElement(d: Dom)
    requires d != {}
    ensures exists y :: y in d
  {
    if forall y :: y !in d {
      assert false;
    }
  }

  /** The lower bound of a domain. */
  function Lb(d: Dom): (m: int)
    requires d != {}
    ensures m in d && forall x :: x in d ==> m <= x
  {
    MinExists(d);
    var m :| m in d && forall x :: x in d ==> m <= x; m
  }

  /** The upper bound of a domain. */
  function Ub(d: Dom): (m: int)
    requires d != {}
    ensures m in d && forall x :: x in d ==> x <= m
  {
    MaxExists(d);
    var m :| m in d && forall x :: x in d ==> x <= m; m
  }

  /** A variable is instantiated when its domain holds exactly one value. */
  predicate Instantiated(d: Dom) {
    |d| == 1
  }

  /** A singleton's bounds are its element, and a domain whose bounds meet is that singleton. */
  lemma InstantiatedBounds(d: Dom)
    requires d != {}
    ensures Instantiated(d) <==> Lb(d) == Ub(d)
    ensures Instantiated(d) ==> d == {Lb(d)}
  {
    if Lb(d) == Ub(d) {
      assert d == {Lb(d)};
    }
    if Instantiated(d) {
      var x :| x in d;
      assert d == {x} by {
        forall y | y in d ensures y == x {
          if y != x { assert {x, y} <= d; assert |{x, y}| == 2; SubsetCard({x, y}, d); }
        }
      }
    }
  }

  /** A subset is no larger than its superset. */
  lemma SubsetCard(a: Dom, b: Dom)
    requires a <= b
    ensures |a| <= |b|
  {
    assert b == a + (b - a);
  }

  /** A proper subset is strictly smaller. */
  lemma ProperSubsetCard(a: Dom, b: Dom)
    requires a <= b && a != b
    ensures |a| < |b|
  {
    NonEmptyHasElement(b - a);
    var x :| x in b - a;
    SubsetCard(a, b - {x});
  }

  /** Lb and Ub only move inwards when a domain shrinks. */
  lemma SubsetBounds(a: Dom, b: Dom)
    requires a != {} && a <= b
    ensures Lb(b) <= Lb(a) && Ub(a) <= Ub(b)
  {
  }

  /** The values of d that are at least l. */
  function AtLeast(d: Dom, l: int): (r: Dom)
    ensures forall x :: x in r <==> x in d && l <= x
  {
    set x | x in d && l <= x
  }

  /** The values of d that are at most u. */
  function AtMost(d: Dom, u: int): (r: Dom)
    ensures forall x :: x in r <==> x in d && x <= u
  {
    set x | x in d && x <= u
  }

  /** d has no gap: every integer between its bounds is one of its values (the domain of a
      variable whose domain is not enumerated). */
  ghost predicate Interval(d: Dom) {
    d == {} || forall x :: Lb(d) <= x <= Ub(d) ==> x in d
  }

  /** Cutting an interval from above leaves an interval. */
  lemma IntervalAtMost(d: Dom, u: int)
    requires Interval(d)
    ensures Interval(AtMost(d, u))
  {
    var r := AtMost(d, u);
    if r != {} {
      SubsetBounds(r, d);
    }
  }

  /** Cutting an interval from below leaves an interval. */
  lemma IntervalAtLeast(d: Dom, l: int)
    requires Interval(d)
    ensures Interval(AtLeast(d, l))
  {
    var r := AtLeast(d, l);
    if r != {} {
      SubsetBounds(r, d);
    }
  }

  /** Restricting an interval to a range leaves an interval. */
  lemma IntervalClamp(d: Dom, l: int, u: int)
    requires Interval(d)
    ensures Interval(AtMost(AtLeast(d, l), u))
  {
    IntervalAtLeast(d, l);
    IntervalAtMost(AtLeast(d, l), u);
  }

  /** Restricting an interval to a range [l, u] within its bounds gives exactly the bounds
      l and u. */
  lemma IntervalClampBounds(d: Dom, l: int, u: int)
    requires d != {} && Interval(d) && Lb(d) <= l <= u <= Ub(d)
    ensures AtMost(AtLeast(d, l), u) != {}
    ensures Lb(AtMost(AtLeast(d, l), u)) == l && Ub(AtMost(AtLeast(d, l), u)) == u
  {
    assert l in AtMost(AtLeast(d, l), u) && u in AtMost(AtLeast(d, l), u);
  }

  /** Restricting d to a range that holds both its bounds leaves d as it is. */
  lemma ClampWithinBounds(d: Dom, l: int, u: int)
    requires d != {} && l <= Lb(d) && Ub(d) <= u
    ensures AtLeast(d, l) == d && AtMost(d, u) == d && AtMost(AtLeast(d, l), u) == d
  {
  }

  /** Raising the lower bound of d to l: fails when no value of d reaches l, and reports a
      change exactly when some value below l is removed. */
  function UpdateLowerBound(d: Dom, l: int): (r: Update)
    requires d != {}
    ensures r.Wipeout? <==> Ub(d) < l
    ensures r.Updated? ==> r.dom == AtLeast(d, l) && r.dom != {} && (r.changed <==> Lb(d) < l)
  {
    if l <= Lb(d) then
      assert AtLeast(d, l) == d;
      Updated(d, false)
    else if Ub(d) < l then
      Wipeout
    else
      assert Ub(d) in AtLeast(d, l);
      Updated(AtLeast(d, l), true)
  }

  /** Lowering the upper bound of d to u, symmetric to UpdateLowerBound. */
  function UpdateUpperBound(d: Dom, u: int): (r: Update)
    requires d != {}
    ensures r.Wipeout? <==> u < Lb(d)
    ensures r.Updated? ==> r.dom == AtMost(d, u) && r.dom != {} && (r.changed <==> u < Ub(d))
  {
    if Ub(d) <= u then
      assert AtMost(d, u) == d;
      Updated(d, false)
    else if u < Lb(d) then
      Wipeout
    else
      assert Lb(d) in AtMost(d, u);
      Updated(AtMost(d, u), true)
  }

  /** Restricting d to [l, u] in one call: fails when no value of d lies in that range. */
  function UpdateBounds(d: Dom, l: int, u: int): (r: Update)
    requires d != {}
    ensures r.Wipeout? <==> forall x :: x in d ==> x < l || u < x
    ensures r.Wipeout? <==> AtMost(AtLeast(d, l), u) == {}
    ensures r.Updated? ==> r.dom == AtMost(AtLeast(d, l), u) && r.dom != {}
    ensures r.Updated? ==> (r.changed <==> Lb(d) < l || u < Ub(d))
  {
    match UpdateLowerBound(d, l)
    case Wipeout => Wipeout
    case Updated(d1, c1) =>
      match UpdateUpperBound(d1, u)
      case Wipeout => Wipeout
      case Updated(d2, c2) =>
        assert c2 ==> u < Ub(d) by { if c2 { assert Ub(d1) in d; } }
        Updated(d2, c1 || c2)
  }

  /** Instantiating d to v: fails when v is not in d; changes d unless it already is {v}. */
  function InstantiateTo(d: Dom, v: int): (r: Update)
    ensures r.Wipeout? <==> v !in d
    ensures r.Updated? ==> r.dom == {v} && (r.changed <==> d != {v})
  {
    if v in d then Updated({v}, d != {v}) else Wipeout
  }

  /** Removing v from d: fails when d is exactly {v}; changes d when v was in it. */
  function RemoveValue(d: Dom, v: int): (r: Update)
    ensures r.Wipeout? <==> d == {v}
    ensures r.Updated? ==> r.dom == d - {v} && (r.changed <==> v in d)
  {
    if d == {v} then Wipeout
    else if v in d then Updated(d - {v}, true)
    else Updated(d, false)
  }

  /** The three-valued answer of an entailment check (ESat). */
  datatype ESat = False | True | Undefined

  /** The outcome of a propagation over the domains of a propagator's scope. */
  datatype Outcome = Contradiction | Propagated(doms: seq<Dom>)

  /** Every domain of the scope is non-empty. */
  predicate NonEmpty(doms: seq<Dom>) {
    forall i :: 0 <= i < |doms| ==> doms[i] != {}
  }

  /** doms2 only shrinks doms1, position by position. */
  predicate Shrinks(doms2: seq<Dom>, doms1: seq<Dom>) {
    |doms2| == |doms1| && forall i :: 0 <= i < |doms1| ==> doms2[i] <= doms1[i]
  }

  /** Shrinking composes. */
  lemma ShrinksTrans(d3: seq<Dom>, d2: seq<Dom>, d1: seq<Dom>)
    requires Shrinks(d3, d2) && Shrinks(d2, d1)
    ensures Shrinks(d3, d1)
  {
  }

  /** An assignment picks one value in every domain. */
  predicate IsAssignment(a: seq<int>, doms: seq<Dom>) {
    |a| == |doms| && forall i :: 0 <= i < |a| ==> a[i] in doms[i]
  }
}
