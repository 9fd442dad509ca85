/** The fast count propagator: the number of variables x[0..n-1] equal to `value` is the
    cardinality variable card. The scope's domains are doms[0..n-1] for the x's and doms[n]
    for card. */
module FastCount {
  import opened Domains

  /** Number of positions below k whose domain is exactly {value}. */
  function MinCount(doms: seq<Dom>, value: int, k: nat): (c: nat)
    requires k <= |doms|
    ensures c <= k
  {
    if k == 0 then 0 else MinCount(doms, value, k - 1) + (if doms[k - 1] == {value} then 1 else 0)
  }

  /** Number of positions below k whose domain contains value. */
  function MaxCount(doms: seq<Dom>, value: int, k: nat): (c: nat)
    requires k <= |doms|
    ensures c <= k
  {
    if k == 0 then 0 else MaxCount(doms, value, k - 1) + (if value in doms[k - 1] then 1 else 0)
  }

  /** Number of positions below k where the assignment a takes value. */
  function Occurrences(a: seq<int>, value: int, k: nat): (c: nat)
    requires k <= |a|
    ensures c <= k
  {
    if k == 0 then 0 else Occurrences(a, value, k - 1) + (if a[k - 1] == value then 1 else 0)
  }

  /** The count constraint holds of an assignment to [x[0..n-1], card]. */
  predicate Holds(a: seq<int>, value: int, n: nat)
    requires |a| == n + 1
  {
    Occurrences(a, value, n) == a[n]
  }

  /** The occurrences of value in any assignment lie between the two counts. */
  lemma {:induction false} OccurrencesBetween(a: seq<int>, doms: seq<Dom>, value: int, k: nat)
    requires IsAssignment(a, doms) && k <= |doms|
    ensures MinCount(doms, value, k) <= Occurrences(a, value, k) <= MaxCount(doms, value, k)
  {
    if k > 0 {
      OccurrencesBetween(a, doms, value, k - 1);
      assert a[k - 1] in doms[k - 1];
    }
  }

  /** When no domain below k is undecided about value, every assignment meets the count. */
  lemma {:induction false} OccurrencesDecided(a: seq<int>, doms: seq<Dom>, value: int, k: nat)
    requires IsAssignment(a, doms) && k <= |doms|
    requires MinCount(doms, value, k) == MaxCount(doms, value, k)
    ensures Occurrences(a, value, k) == MinCount(doms, value, k)
  {
    OccurrencesBetween(a, doms, value, k);
  }

  /** The set of positions below k whose domain is exactly {value}, and its size. */
  lemma {:induction false} MinCountIsSize(doms: seq<Dom>, value: int, k: nat)
    requires k <= |doms|
    ensures MinCount(doms, value, k) == |set i | 0 <= i < k && doms[i] == {value}|
  {
    if k > 0 {
      MinCountIsSize(doms, value, k - 1);
      var prev := set i | 0 <= i < k - 1 && doms[i] == {value};
      var cur := set i | 0 <= i < k && doms[i] == {value};
      if doms[k - 1] == {value} {
        assert cur == prev + {k - 1};
      } else {
        assert cur == prev;
      }
    }
  }

  /** The set of positions below k whose domain contains value, and its size. */
  lemma {:induction false} MaxCountIsSize(doms: seq<Dom>, value: int, k: nat)
    requires k <= |doms|
    ensures MaxCount(doms, value, k) == |set i | 0 <= i < k && value in doms[i]|
  {
    if k > 0 {
      MaxCountIsSize(doms, value, k - 1);
      var prev := set i | 0 <= i < k - 1 && value in doms[i];
      var cur := set i | 0 <= i < k && value in doms[i];
      if value in doms[k - 1] {
        assert cur == prev + {k - 1};
      } else {
        assert cur == prev;
      }
    }
  }

  /** An assignment reaching the upper count takes value wherever its domain allows it. */
  lemma {:induction false} OccurrencesAtMax(a: seq<int>, doms: seq<Dom>, value: int, k: nat)
    requires IsAssignment(a, doms) && k <= |doms|
    requires Occurrences(a, value, k) == MaxCount(doms, value, k)
    ensures forall j :: 0 <= j < k && value in doms[j] ==> a[j] == value
  {
    if k > 0 {
      OccurrencesBetween(a, doms, value, k - 1);
      assert a[k - 1] in doms[k - 1];
      OccurrencesAtMax(a, doms, value, k - 1);
    }
  }

  /** An assignment reaching only the lower count avoids value wherever it is not forced. */
  lemma {:induction false} OccurrencesAtMin(a: seq<int>, doms: seq<Dom>, value: int, k: nat)
    requires IsAssignment(a, doms) && k <= |doms|
    requires Occurrences(a, value, k) == MinCount(doms, value, k)
    ensures forall j :: 0 <= j < k && doms[j] != {value} ==> a[j] != value
  {
    if k > 0 {
      OccurrencesBetween(a, doms, value, k - 1);
      assert a[k - 1] in doms[k - 1];
      OccurrencesAtMin(a, doms, value, k - 1);
    }
  }

  /** mand and poss are exactly the x's instantiated to value and the undecided x's that
      still contain it. */
  ghost predicate ClassifiedBy(mand: set<nat>, poss: set<nat>, doms: seq<Dom>, value: int, n: nat)
    requires n < |doms|
  {
    && (forall i :: 0 <= i < n ==> (i in mand <==> doms[i] == {value}))
    && (forall i :: 0 <= i < n ==> (i in poss <==> value in doms[i] && doms[i] != {value}))
    && (forall i :: i in poss ==> i < n)
    && (forall i :: i in mand ==> i < n)
  }

  /** Under an exact classification the two counts are the sizes of the two sets. */
  lemma ClassifiedCounts(mand: set<nat>, poss: set<nat>, doms: seq<Dom>, value: int, n: nat)
    requires n < |doms| && ClassifiedBy(mand, poss, doms, value, n)
    ensures mand !! poss
    ensures MinCount(doms, value, n) == |mand|
    ensures MaxCount(doms, value, n) == |mand| + |poss|
  {
    MinCountIsSize(doms, value, n);
    MaxCountIsSize(doms, value, n);
    assert (set i | 0 <= i < n && doms[i] == {value}) == mand;
    assert (set i | 0 <= i < n && value in doms[i]) == mand + poss;
  }

  /** The bookkeeping of an event on x[i] keeps the classification exact: a possible that lost
      value is dropped, a possible that became instantiated is moved, any other x keeps its
      class because an instantiated domain or a domain without value stays so when it shrinks. */
  lemma EventKeepsClassified(mand: set<nat>, poss: set<nat>, before: seq<Dom>, doms: seq<Dom>,
                             value: int, n: nat, i: nat)
    requires |before| == |doms| == n + 1 && NonEmpty(doms)
    requires ClassifiedBy(mand, poss, before, value, n)
    requires forall j :: 0 <= j < n && j != i ==> doms[j] == before[j]
    requires i < n ==> doms[i] <= before[i]
    ensures i < n && i in poss && value !in doms[i] ==>
      ClassifiedBy(mand, poss - {i}, doms, value, n)
    ensures i < n && i in poss && value in doms[i] && Instantiated(doms[i]) ==>
      ClassifiedBy(mand + {i}, poss - {i}, doms, value, n)
    ensures !(i < n && i in poss && (value !in doms[i] || Instantiated(doms[i]))) ==>
      ClassifiedBy(mand, poss, doms, value, n)
  {
    if i < n {
      InstantiatedBounds(doms[i]);
      if i in mand {
        assert doms[i] == {value} by {
          assert doms[i] <= {value};
          var x :| x in doms[i];
        }
      }
    }
  }

  /** Forcing every possible to value, or removing value from every possible, keeps the
      classification exact once the possibles have moved or been dropped. */
  lemma FilterKeepsClassified(mand: set<nat>, poss: set<nat>, doms: seq<Dom>, after: seq<Dom>,
                              value: int, n: nat, forced: bool)
    requires |doms| == |after| == n + 1
    requires ClassifiedBy(mand, poss, doms, value, n)
    requires forall j :: 0 <= j < n ==>
      after[j] == if j !in poss then doms[j] else if forced then {value} else doms[j] - {value}
    ensures forced ==> ClassifiedBy(mand + poss, {}, after, value, n)
    ensures !forced ==> ClassifiedBy(mand, {}, after, value, n)
  {
    if !forced {
      forall j | 0 <= j < n && j in poss ensures after[j] != {value} && value !in after[j] { }
    }
  }

  /** Tightening card alone keeps the classification of the x's. */
  lemma CardKeepsClassified(mand: set<nat>, poss: set<nat>, doms: seq<Dom>, after: seq<Dom>,
                            value: int, n: nat)
    requires |doms| == |after| == n + 1
    requires ClassifiedBy(mand, poss, doms, value, n)
    requires forall j :: 0 <= j < n ==> after[j] == doms[j]
    ensures ClassifiedBy(mand, poss, after, value, n)
  {
  }

  class PropFastCount {
    const n: nat
    const value: int
    /** Indices of the x's instantiated to value. */
    var mandatories: set<nat>
    /** Indices of the uninstantiated x's whose domain still contains value. */
    var possibles: set<nat>

    ghost predicate Valid()
      reads this
    {
      && possibles !! mandatories
      && (forall i :: i in possibles ==> i < n)
      && (forall i :: i in mandatories ==> i < n)
    }

    /** The domains of a scope [x[0..n-1], card]. */
    predicate Scope(doms: seq<Dom>) {
      |doms| == n + 1 && NonEmpty(doms)
    }

    /** The two index sets classify the x's exactly: what full propagation computes. */
    ghost predicate Classified(doms: seq<Dom>)
      reads this
      requires Scope(doms)
    {
      ClassifiedBy(mandatories, possibles, doms, value, n)
    }

    constructor (n: nat, value: int)
      ensures Valid() && this.n == n && this.value == value
      ensures mandatories == {} && possibles == {}
    {
      this.n := n;
      this.value := value;
      mandatories := {};
      possibles := {};
    }

    /** Entailment from the current domains: FALSE when card cannot lie between the number
        of x's surely equal to value and the number that may be; TRUE when card is fixed and
        every x is decided; UNDEFINED otherwise. */
    function Entailment(doms: seq<Dom>): ESat
      requires Scope(doms)
    {
      var lo, hi := MinCount(doms, value, n), MaxCount(doms, value, n);
      if Lb(doms[n]) > hi || Ub(doms[n]) < lo then False
      else if !(Instantiated(doms[n]) && hi == lo) then Undefined
      else True
    }

    /** FALSE is sound: no assignment of the domains satisfies the count. */
    lemma EntailmentFalseSound(doms: seq<Dom>, a: seq<int>)
      requires Scope(doms) && Entailment(doms) == False && IsAssignment(a, doms)
      ensures !Holds(a, value, n)
    {
      OccurrencesBetween(a, doms, value, n);
      assert a[n] in doms[n];
    }

    /** TRUE is sound: every assignment of the domains satisfies the count. */
    lemma EntailmentTrueSound(doms: seq<Dom>, a: seq<int>)
      requires Scope(doms) && Entailment(doms) == True && IsAssignment(a, doms)
      ensures Holds(a, value, n)
    {
      OccurrencesDecided(a, doms, value, n);
      InstantiatedBounds(doms[n]);
      assert a[n] in doms[n];
    }

    /** The entailment check, counting in one pass over the x's. */
    method IsEntailed(doms: seq<Dom>) returns (r: ESat)
      requires Scope(doms)
      ensures r == Entailment(doms)
    {
      var min, max := 0, 0;
      for i := 0 to n
        invariant min == MinCount(doms, value, i) && max == MaxCount(doms, value, i)
      {
        var v := doms[i];
        if v == {value} {
          min := min + 1;
          max := max + 1;
        } else if value in v {
          max := max + 1;
        }
      }
      var card := doms[n];
      if Lb(card) > max || Ub(card) < min {
        return False;
      }
      if !(Instantiated(card) && max == min) {
        return Undefined;
      }
      return True;
    }

    /** The domain card gets from the first two lines of filter. */
    ghost function CardFiltered(card: Dom, m: nat, p: nat): Dom {
      AtMost(AtLeast(card, m), m + p)
    }

    /** The forcing branch of filter: every possible is added to mandatories and
        instantiated to value; possibles ends empty. Fails on the first possible whose
        domain no longer holds value. */
    method ForcePossibles(ds: seq<Dom>) returns (r: Outcome)
      requires Valid() && Scope(ds)
      modifies this
      ensures r.Contradiction? <==> exists j :: j in old(possibles) && value !in ds[j]
      ensures r.Propagated? ==>
        && Valid() && Scope(r.doms) && Shrinks(r.doms, ds)
        && mandatories == old(mandatories) + old(possibles) && possibles == {}
        && (forall j :: 0 <= j < |ds| ==> r.doms[j] == if j in old(possibles) then {value} else ds[j])
    {
      ghost var M, P := mandatories, possibles;
      var cur := ds;
      var mand := mandatories;  // the field, added to as each possible is visited
      // the bitset of possibles is visited in increasing order
      for k := 0 to n
        invariant forall j :: j in mand <==> j in M || (j in P && j < k)
        invariant |cur| == |ds|
        invariant forall j :: 0 <= j < |ds| ==> cur[j] == if j in P && j < k then {value} else ds[j]
        invariant forall j :: j in P && j < k ==> value in ds[j]
      {
        if k in possibles {
          mand := mand + {k};
          var u := InstantiateTo(cur[k], value);
          if u.Wipeout? {
            mandatories := mand;
            return Contradiction;
          }
          cur := cur[k := u.dom];
        }
      }
      assert Shrinks(cur, ds) && NonEmpty(cur);
      mandatories := mand;
      possibles := {};
      r := Propagated(cur);
    }

    /** The removing branch of filter: value is removed from every possible; possibles
        ends empty and mandatories is unchanged. Fails on the first possible whose domain
        has shrunk to {value}. */
    method RemoveFromPossibles(ds: seq<Dom>) returns (r: Outcome)
      requires Valid() && Scope(ds)
      modifies this
      ensures mandatories == old(mandatories)
      ensures r.Contradiction? <==> exists j :: j in old(possibles) && ds[j] == {value}
      ensures r.Propagated? ==>
        && Valid() && Scope(r.doms) && Shrinks(r.doms, ds) && possibles == {}
        && (forall j :: 0 <= j < |ds| ==> r.doms[j] == if j in old(possibles) then ds[j] - {value} else ds[j])
    {
      ghost var P := possibles;
      var cur := ds;
      for k := 0 to n
        invariant |cur| == |ds|
        invariant forall j :: 0 <= j < |ds| ==> cur[j] == if j in P && j < k then ds[j] - {value} else ds[j]
        invariant forall j :: j in P && j < k ==> ds[j] != {value}
      {
        if k in possibles {
          var u := RemoveValue(cur[k], value);
          if u.Wipeout? {
            return Contradiction;
          }
          cur := cur[k := u.dom];
        }
      }
      assert Shrinks(cur, ds);
      assert NonEmpty(cur) by {
        forall j | 0 <= j < |cur| ensures cur[j] != {} {
          if j in P { assert ds[j] != {value} && ds[j] != {}; }
        }
      }
      possibles := {};
      r := Propagated(cur);
    }

    /** What the end of filter does once card's domain is ds[n], from sets M and P to sets
        M2 and P2: when card is {|M| + |P|} every possible is instantiated to value and
        becomes mandatory, failing if one no longer holds value; when card is {|M|} (and
        there is a possible) value is removed from every possible, failing if one is
        {value}; possibles then ends empty. Otherwise nothing changes. */
    ghost predicate FixedCardStep(M: set<nat>, P: set<nat>, ds: seq<Dom>, r: Outcome,
                                  M2: set<nat>, P2: set<nat>)
      requires Scope(ds)
    {
      var forcing, removing := ds[n] == {|M| + |P|}, ds[n] == {|M|} && P != {};
      && (r.Contradiction? <==>
            || (forcing && exists j :: 0 <= j < n && j in P && value !in ds[j])
            || (removing && exists j :: 0 <= j < n && j in P && ds[j] == {value}))
      && (r.Propagated? ==>
            && Scope(r.doms) && Shrinks(r.doms, ds) && r.doms[n] == ds[n]
            && (forcing ==>
                  (&& M2 == M + P && P2 == {}
                   && forall j :: 0 <= j < n ==> r.doms[j] == if j in P then {value} else ds[j]))
            && (removing ==>
                  (&& M2 == M && P2 == {}
                   && forall j :: 0 <= j < n ==> r.doms[j] == if j in P then ds[j] - {value} else ds[j]))
            && (!forcing && !removing ==> M2 == M && P2 == P && r.doms == ds)
            && (ClassifiedBy(M, P, ds, value, n) ==> ClassifiedBy(M2, P2, r.doms, value, n)))
    }

    /** The end of filter, once card is tightened to ds[n]. */
    method FilterFixedCard(ds: seq<Dom>) returns (r: Outcome)
      requires Valid() && Scope(ds)
      modifies this
      ensures r.Propagated? ==> Valid()
      ensures FixedCardStep(old(mandatories), old(possibles), ds, r, mandatories, possibles)
    {
      ghost var M, P := mandatories, possibles;
      ghost var wasClassified := Classified(ds);
      r := Propagated(ds);
      var card := ds[n];
      if Instantiated(card) {
        InstantiatedBounds(card);
        var nb := Lb(card);
        if |possibles| + |mandatories| == nb {
          r := ForcePossibles(ds);
          if wasClassified && r.Propagated? {
            FilterKeepsClassified(M, P, ds, r.doms, value, n, true);
          }
        } else if |mandatories| == nb {
          r := RemoveFromPossibles(ds);
          if wasClassified && r.Propagated? {
            FilterKeepsClassified(M, P, ds, r.doms, value, n, false);
          }
        }
      } else {
        assert card != {|M| + |P|} && card != {|M|};
      }
    }

    /** Every solution of the count within doms survives in the outcome r. */
    ghost predicate KeepsSolutions(doms: seq<Dom>, r: Outcome)
      requires Scope(doms)
    {
      forall a :: IsAssignment(a, doms) && Holds(a, value, n) ==> r.Propagated? && IsAssignment(a, r.doms)
    }

    /** A solution lies in the tightened card. */
    lemma SolutionInCard(M: set<nat>, P: set<nat>, doms: seq<Dom>, a: seq<int>)
      requires Scope(doms) && ClassifiedBy(M, P, doms, value, n)
      requires IsAssignment(a, doms) && Holds(a, value, n)
      ensures a[n] in CardFiltered(doms[n], |M|, |P|)
    {
      ClassifiedCounts(M, P, doms, value, n);
      OccurrencesBetween(a, doms, value, n);
    }

    /** An assignment of ds that takes value at every possible survives forcing them. */
    lemma ForcedKeepsSolution(M: set<nat>, P: set<nat>, ds: seq<Dom>, r: Outcome,
                              M2: set<nat>, P2: set<nat>, a: seq<int>)
      requires Scope(ds) && IsAssignment(a, ds) && ds[n] == {|M| + |P|}
      requires forall j :: 0 <= j < n && j in P ==> a[j] == value
      requires FixedCardStep(M, P, ds, r, M2, P2)
      ensures r.Propagated? && IsAssignment(a, r.doms)
    {
      assert r.Propagated? by {
        assert forall j :: 0 <= j < n && j in P ==> value in ds[j] by {
          forall j | 0 <= j < n && j in P ensures value in ds[j] {
            assert a[j] in ds[j];
          }
        }
      }
      forall j | 0 <= j < |a| ensures a[j] in r.doms[j] {
        if j < n && j in P {
          assert r.doms[j] == {value};
        } else {
          assert r.doms[j] == ds[j];
        }
      }
    }

    /** An assignment of ds that avoids value at every possible survives removing value
        from them. */
    lemma RemovedKeepsSolution(M: set<nat>, P: set<nat>, ds: seq<Dom>, r: Outcome,
                               M2: set<nat>, P2: set<nat>, a: seq<int>)
      requires Scope(ds) && IsAssignment(a, ds) && ds[n] == {|M|} && ds[n] != {|M| + |P|} && P != {}
      requires forall j :: 0 <= j < n && j in P ==> a[j] != value
      requires FixedCardStep(M, P, ds, r, M2, P2)
      ensures r.Propagated? && IsAssignment(a, r.doms)
    {
      assert r.Propagated? by {
        assert forall j :: 0 <= j < n && j in P ==> ds[j] != {value} by {
          forall j | 0 <= j < n && j in P ensures ds[j] != {value} {
            assert a[j] in ds[j];
          }
        }
      }
      forall j | 0 <= j < |a| ensures a[j] in r.doms[j] {
        if j < n && j in P {
          assert r.doms[j] == ds[j] - {value};
        } else {
          assert r.doms[j] == ds[j];
        }
      }
    }

    /** A solution survives the end of filter: it forces every possible to value when the
        tightened card says all of them count, and keeps every possible off value when it
        says none does. */
    lemma FixedCardKeepsSolution(M: set<nat>, P: set<nat>, doms: seq<Dom>, r: Outcome,
                                 M2: set<nat>, P2: set<nat>, a: seq<int>)
      requires Scope(doms) && ClassifiedBy(M, P, doms, value, n)
      requires IsAssignment(a, doms) && Holds(a, value, n)
      requires CardFiltered(doms[n], |M|, |P|) != {}
      requires FixedCardStep(M, P, doms[n := CardFiltered(doms[n], |M|, |P|)], r, M2, P2)
      ensures r.Propagated? && IsAssignment(a, r.doms)
    {
      var ds := doms[n := CardFiltered(doms[n], |M|, |P|)];
      SolutionInCard(M, P, doms, a);
      assert IsAssignment(a, ds);
      ClassifiedCounts(M, P, doms, value, n);
      if ds[n] == {|M| + |P|} {
        OccurrencesAtMax(a, doms, value, n);
        ForcedKeepsSolution(M, P, ds, r, M2, P2, a);
      } else if ds[n] == {|M|} && P != {} {
        OccurrencesAtMin(a, doms, value, n);
        RemovedKeepsSolution(M, P, ds, r, M2, P2, a);
      } else {
        assert r.doms == ds;
      }
    }

    /** What filter does from sets M and P to sets M2 and P2: card is tightened to
        [|M|, |M| + |P|], a wipeout failing, and the end of filter runs on the tightened
        domains as FixedCardStep says. */
    ghost predicate FilterSpec(M: set<nat>, P: set<nat>, doms: seq<Dom>, r: Outcome,
                               M2: set<nat>, P2: set<nat>)
      requires Scope(doms)
    {
      var card := CardFiltered(doms[n], |M|, |P|);
      && (card == {} ==> r.Contradiction?)
      && (card != {} ==> FixedCardStep(M, P, doms[n := card], r, M2, P2))
    }

    /** Filter loses no solution when the sets classify the x's exactly. */
    lemma FilterKeepsSolutions(M: set<nat>, P: set<nat>, doms: seq<Dom>, r: Outcome,
                               M2: set<nat>, P2: set<nat>)
      requires Scope(doms) && ClassifiedBy(M, P, doms, value, n)
      requires FilterSpec(M, P, doms, r, M2, P2)
      ensures KeepsSolutions(doms, r)
    {
      forall a | IsAssignment(a, doms) && Holds(a, value, n)
        ensures r.Propagated? && IsAssignment(a, r.doms)
      {
        SolutionInCard(M, P, doms, a);
        FixedCardKeepsSolution(M, P, doms, r, M2, P2, a);
      }
    }

    /** Tightens card to [|mandatories|, |mandatories| + |possibles|], failing when no value
        of card lies there, then finishes as FixedCardStep says. */
    method Filter(doms: seq<Dom>) returns (r: Outcome)
      requires Valid() && Scope(doms)
      modifies this
      ensures FilterSpec(old(mandatories), old(possibles), doms, r, mandatories, possibles)
      ensures r.Propagated? ==> Valid() && Scope(r.doms) && Shrinks(r.doms, doms)
      ensures r.Propagated? && old(Classified(doms)) ==> Classified(r.doms)
      ensures old(Classified(doms)) ==> KeepsSolutions(doms, r)
    {
      ghost var M, P := mandatories, possibles;
      ghost var wasClassified := Classified(doms);
      var u1 := UpdateLowerBound(doms[n], |mandatories|);
      if u1.Wipeout? {
        assert CardFiltered(doms[n], |M|, |P|) == {};
        r := Contradiction;
        if Classified(doms) {
          FilterKeepsSolutions(M, P, doms, r, M, P);
        }
        return;
      }
      var u2 := UpdateUpperBound(u1.dom, |mandatories| + |possibles|);
      if u2.Wipeout? {
        assert CardFiltered(doms[n], |M|, |P|) == {};
        r := Contradiction;
        if Classified(doms) {
          FilterKeepsSolutions(M, P, doms, r, M, P);
        }
        return;
      }
      var ds := doms[n := u2.dom];
      assert u2.dom == CardFiltered(doms[n], |M|, |P|);
      if Classified(doms) {
        CardKeepsClassified(M, P, doms, ds, value, n);
      }
      r := FilterFixedCard(ds);
      if wasClassified {
        FilterKeepsSolutions(M, P, doms, r, mandatories, possibles);
      }
    }

    /** The x's instantiated to value. */
    ghost function MandOf(doms: seq<Dom>): set<nat>
      requires Scope(doms)
    {
      set i: nat | i < n && doms[i] == {value}
    }

    /** The undecided x's whose domain still contains value. */
    ghost function PossOf(doms: seq<Dom>): set<nat>
      requires Scope(doms)
    {
      set i: nat | i < n && value in doms[i] && doms[i] != {value}
    }

    /** The rebuilding loop of full propagation: mand collects the x's instantiated to value
        and poss the undecided x's that contain it, which classifies the x's exactly. */
    method Classify(doms: seq<Dom>) returns (mand: set<nat>, poss: set<nat>)
      requires Scope(doms)
      ensures mand == MandOf(doms) && poss == PossOf(doms)
      ensures ClassifiedBy(mand, poss, doms, value, n) && mand !! poss
    {
      mand, poss := {}, {};
      for i := 0 to n
        invariant forall j :: j in mand <==> 0 <= j < i && doms[j] == {value}
        invariant forall j :: j in poss <==> 0 <= j < i && value in doms[j] && doms[j] != {value}
      {
        var v := doms[i];
        var ub := Ub(v);
        InstantiatedBounds(v);
        if Instantiated(v) {
          if ub == value {
            mand := mand + {i};
          }
        } else {
          if value in v {
            poss := poss + {i};
          }
        }
      }
    }

    /** Full propagation (the FULL_PROPAGATION bit of the event mask is `full`): both
        index sets are rebuilt from the domains of the x's, then filter runs. */
    method Propagate(full: bool, doms: seq<Dom>) returns (r: Outcome)
      requires Valid() && Scope(doms)
      modifies this
      ensures full ==> FilterSpec(MandOf(doms), PossOf(doms), doms, r, mandatories, possibles)
      ensures !full ==> FilterSpec(old(mandatories), old(possibles), doms, r, mandatories, possibles)
      ensures full && r.Propagated? ==> Valid() && Scope(r.doms) && Classified(r.doms) && Shrinks(r.doms, doms)
      ensures !full && r.Propagated? ==> Valid() && Scope(r.doms) && Shrinks(r.doms, doms)
      ensures !full && old(Classified(doms)) && r.Propagated? ==> Classified(r.doms)
      ensures (full || old(Classified(doms))) ==> KeepsSolutions(doms, r)
    {
      if full {
        mandatories, possibles := Classify(doms);
      }
      r := Filter(doms);
    }

    /** An exact classification is unique: it is MandOf and PossOf of the domains. */
    lemma ClassifiedIsMandPoss(mand: set<nat>, poss: set<nat>, doms: seq<Dom>)
      requires Scope(doms) && ClassifiedBy(mand, poss, doms, value, n)
      ensures mand == MandOf(doms) && poss == PossOf(doms)
    {
      assert forall i :: i in mand <==> i in MandOf(doms);
      assert forall i :: i in poss <==> i in PossOf(doms);
    }

    /** The three ways the end of filter can leave the sets when it does not fail: every
        possible forced, every possible stripped of value, or nothing done. */
    lemma FixedCardSets(M: set<nat>, P: set<nat>, ds: seq<Dom>, d1: seq<Dom>, M2: set<nat>, P2: set<nat>)
      requires Scope(ds) && FixedCardStep(M, P, ds, Propagated(d1), M2, P2)
      ensures d1[n] == ds[n]
      ensures || (ds[n] == {|M| + |P|} && M2 == M + P && P2 == {})
              || (ds[n] == {|M|} && P != {} && M2 == M && P2 == {})
              || (ds[n] != {|M| + |P|} && !(ds[n] == {|M|} && P != {}) && M2 == M && P2 == P && d1 == ds)
    {
    }

    /** When no possible is left, or card is fixed to neither count, the end of filter
        changes nothing. */
    lemma FixedCardSettled(M: set<nat>, P: set<nat>, ds: seq<Dom>, r: Outcome, M2: set<nat>, P2: set<nat>)
      requires Scope(ds) && FixedCardStep(M, P, ds, r, M2, P2)
      requires P == {} || (ds[n] != {|M| + |P|} && ds[n] != {|M|})
      ensures r == Propagated(ds) && M2 == M && P2 == P
    {
      if r.Propagated? && ds[n] == {|M| + |P|} {
        assert r.doms == ds;
      }
    }

    /** When filter from an exact classification M, P does not fail, the sets it leaves
        classify its result exactly, card is the tightened card, and the sets are left in
        one of the three ways of FixedCardSets. */
    lemma FilterLeaves(M: set<nat>, P: set<nat>, doms: seq<Dom>, d1: seq<Dom>, M2: set<nat>, P2: set<nat>)
      requires Scope(doms) && ClassifiedBy(M, P, doms, value, n)
      requires FilterSpec(M, P, doms, Propagated(d1), M2, P2)
      ensures Scope(d1) && ClassifiedBy(M2, P2, d1, value, n) && M !! P
      ensures d1[n] == CardFiltered(doms[n], |M|, |P|)
      ensures || (d1[n] == {|M| + |P|} && M2 == M + P && P2 == {})
              || (d1[n] == {|M|} && P != {} && M2 == M && P2 == {})
              || (d1[n] != {|M| + |P|} && !(d1[n] == {|M|} && P != {}) && M2 == M && P2 == P)
    {
      var ds := doms[n := CardFiltered(doms[n], |M|, |P|)];
      CardKeepsClassified(M, P, doms, ds, value, n);
      ClassifiedCounts(M, P, doms, value, n);
      FixedCardSets(M, P, ds, d1, M2, P2);
    }

    /** A card tightened to [|M|, |M| + |P|] and left by filter with the sets M2, P2 already
        lies within [|M2|, |M2| + |P2|], and is fixed to neither count unless P2 is empty. */
    lemma CardSettled(card: Dom, c0: Dom, M: set<nat>, P: set<nat>, M2: set<nat>, P2: set<nat>)
      requires card != {} && card == CardFiltered(c0, |M|, |P|) && M !! P
      requires || (card == {|M| + |P|} && M2 == M + P && P2 == {})
               || (card == {|M|} && P != {} && M2 == M && P2 == {})
               || (card != {|M| + |P|} && !(card == {|M|} && P != {}) && M2 == M && P2 == P)
      ensures CardFiltered(card, |M2|, |P2|) == card
      ensures P2 == {} || (card != {|M2| + |P2|} && card != {|M2|})
    {
      assert |M| <= Lb(card) && Ub(card) <= |M| + |P|;
      if card == {|M| + |P|} {
        assert |M2| == |M| + |P|;
      }
      ClampWithinBounds(card, |M2|, |M2| + |P2|);
    }

    /** What a full propagation from doms to d1 leaves: the sets M2 and P2 are MandOf and
        PossOf of d1, card lies within [|M2|, |M2| + |P2|], and card is fixed to neither
        count unless no possible is left. */
    lemma FullSettles(doms: seq<Dom>, d1: seq<Dom>, M2: set<nat>, P2: set<nat>)
      requires Scope(doms) && FilterSpec(MandOf(doms), PossOf(doms), doms, Propagated(d1), M2, P2)
      ensures Scope(d1) && M2 == MandOf(d1) && P2 == PossOf(d1)
      ensures CardFiltered(d1[n], |M2|, |P2|) == d1[n]
      ensures P2 == {} || (d1[n] != {|M2| + |P2|} && d1[n] != {|M2|})
    {
      var M, P := MandOf(doms), PossOf(doms);
      assert ClassifiedBy(M, P, doms, value, n);
      FilterLeaves(M, P, doms, d1, M2, P2);
      ClassifiedIsMandPoss(M2, P2, d1);
      CardSettled(d1[n], doms[n], M, P, M2, P2);
    }

    /** Full propagation is idempotent: after a full propagation from doms to d1 has left the
        sets M2 and P2, those sets are MandOf and PossOf of d1, and a second run of filter on
        d1 from them (as a later full propagation, or an incremental one with no event in
        between, would run it) changes neither the domains nor the sets. */
    lemma FullIdempotent(doms: seq<Dom>, d1: seq<Dom>, M2: set<nat>, P2: set<nat>,
                         r2: Outcome, M3: set<nat>, P3: set<nat>)
      requires Scope(doms) && FilterSpec(MandOf(doms), PossOf(doms), doms, Propagated(d1), M2, P2)
      requires Scope(d1) && FilterSpec(M2, P2, d1, r2, M3, P3)
      ensures M2 == MandOf(d1) && P2 == PossOf(d1)
      ensures r2 == Propagated(d1) && M3 == M2 && P3 == P2
    {
      FullSettles(doms, d1, M2, P2);
      assert d1[n := d1[n]] == d1;
      FixedCardSettled(M2, P2, d1, r2, M3, P3);
    }

    /** doms differs from before only by the event on variable i: an x other than x[i]
        keeps its domain, x[i] may only shrink, and card may shrink too. */
    ghost predicate EventOn(i: nat, before: seq<Dom>, doms: seq<Dom>) {
      && Scope(before) && Scope(doms)
      && (forall j :: 0 <= j < n && j != i ==> doms[j] == before[j])
      && (i < n ==> doms[i] <= before[i])
      && doms[n] <= before[n]
    }

    /** Incremental propagation after an event on scope variable i. For an x, the sets change
        only if i is a possible: it is dropped when its domain lost value, moved to
        mandatories when it became instantiated, and filter then runs; otherwise nothing
        happens. An event on card (i >= n) runs filter with the sets untouched. */
    method PropagateEvent(i: nat, doms: seq<Dom>, ghost before: seq<Dom>) returns (r: Outcome)
      requires Valid() && Scope(doms)
      modifies this
      ensures r.Propagated? ==> Valid() && Scope(r.doms) && Shrinks(r.doms, doms)
      ensures i < n && (i !in old(possibles) || (value in doms[i] && !Instantiated(doms[i]))) ==>
        r == Propagated(doms) && mandatories == old(mandatories) && possibles == old(possibles)
      ensures i < n && i in old(possibles) && value !in doms[i] && r.Propagated? ==>
        i !in mandatories && i !in possibles
      ensures i < n && i in old(possibles) && value in doms[i] && Instantiated(doms[i]) && r.Propagated? ==>
        i in mandatories && i !in possibles
      ensures i < n && i in old(possibles) && value !in doms[i] ==>
        FilterSpec(old(mandatories), old(possibles) - {i}, doms, r, mandatories, possibles)
      ensures i < n && i in old(possibles) && value in doms[i] && Instantiated(doms[i]) ==>
        FilterSpec(old(mandatories) + {i}, old(possibles) - {i}, doms, r, mandatories, possibles)
      ensures n <= i ==> FilterSpec(old(mandatories), old(possibles), doms, r, mandatories, possibles)
      ensures n <= i && r.Propagated? ==>
        || (mandatories == old(mandatories) && possibles == old(possibles))
        || (mandatories == old(mandatories) + old(possibles) && possibles == {})
        || (mandatories == old(mandatories) && possibles == {})
      ensures EventOn(i, before, doms) && old(Classified(before)) && r.Propagated? ==> Classified(r.doms)
      ensures EventOn(i, before, doms) && old(Classified(before)) ==> KeepsSolutions(doms, r)
    {
      if EventOn(i, before, doms) && Classified(before) {
        EventKeepsClassified(mandatories, possibles, before, doms, value, n, i);
      }
      if i < n {
        if i in possibles {
          if value !in doms[i] {
            possibles := possibles - {i};
            r := Filter(doms);
          } else if Instantiated(doms[i]) {
            possibles := possibles - {i};
            mandatories := mandatories + {i};
            r := Filter(doms);
          } else {
            r := Propagated(doms);
          }
        } else {
          r := Propagated(doms);
        }
      } else {
        r := Filter(doms);
      }
    }
  }
}
