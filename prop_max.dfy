/** The max propagator: the last scope variable, max, equals the largest of x[0..n-1]. The
    scope's domains are doms[0..n-1] for the x's and doms[n] for max. */
module MinMax {
  import opened Domains

  /** The largest of a[0..k-1]. */
  function MaxOf(a: seq<int>, k: nat): (m: int)
    requires 0 < k <= |a|
    ensures forall i :: 0 <= i < k ==> a[i] <= m
    ensures exists i :: 0 <= i < k && a[i] == m
  {
    if k == 1 then a[0]
    else
      var p := MaxOf(a, k - 1);
      if a[k - 1] > p then a[k - 1] else p
  }

  /** The total number of values left in the domains: filtering only ever lowers it. */
  function TotalSize(doms: seq<Dom>): nat {
    if |doms| == 0 then 0 else TotalSize(doms[..|doms| - 1]) + |doms[|doms| - 1]|
  }

  /** Shrinking never grows the total size, and shrinking strictly lowers it. */
  lemma {:induction false} ShrinksSize(d2: seq<Dom>, d1: seq<Dom>)
    requires Shrinks(d2, d1)
    ensures TotalSize(d2) <= TotalSize(d1)
    ensures d2 != d1 ==> TotalSize(d2) < TotalSize(d1)
  {
    if |d1| > 0 {
      var k := |d1| - 1;
      ShrinksSize(d2[..k], d1[..k]);
      SubsetCard(d2[k], d1[k]);
      assert d1 == d1[..k] + [d1[k]] && d2 == d2[..k] + [d2[k]];
      if d2[k] != d1[k] {
        ProperSubsetCard(d2[k], d1[k]);
      }
    }
  }

  /** Number of x's below k whose upper bound is under lb: the x's that cannot be the max. */
  function Unsupported(doms: seq<Dom>, lb: int, k: nat): (c: nat)
    requires k <= |doms| && NonEmpty(doms)
    ensures c <= k
    ensures c == k <==> forall i :: 0 <= i < k ==> Ub(doms[i]) < lb
  {
    if k == 0 then 0 else Unsupported(doms, lb, k - 1) + (if Ub(doms[k - 1]) < lb then 1 else 0)
  }

  /** The last x below k whose upper bound reaches lb, or -1 when every x below k is
      unsupported. */
  function LastSupport(doms: seq<Dom>, lb: int, k: nat): (s: int)
    requires k <= |doms| && NonEmpty(doms)
    ensures -1 <= s < k
    ensures s == -1 <==> Unsupported(doms, lb, k) == k
    ensures s >= 0 ==> lb <= Ub(doms[s]) && forall i :: s < i < k ==> Ub(doms[i]) < lb
  {
    if k == 0 then -1
    else if lb <= Ub(doms[k - 1]) then k - 1
    else LastSupport(doms, lb, k - 1)
  }

  /** The lower bounds of the domains, position by position. */
  function Lbs(doms: seq<Dom>): (b: seq<int>)
    requires NonEmpty(doms)
    ensures |b| == |doms| && forall i :: 0 <= i < |doms| ==> b[i] == Lb(doms[i])
  {
    seq(|doms|, i requires 0 <= i < |doms| && NonEmpty(doms) => Lb(doms[i]))
  }

  /** The upper bounds of the domains, position by position. */
  function Ubs(doms: seq<Dom>): (b: seq<int>)
    requires NonEmpty(doms)
    ensures |b| == |doms| && forall i :: 0 <= i < |doms| ==> b[i] == Ub(doms[i])
  {
    seq(|doms|, i requires 0 <= i < |doms| && NonEmpty(doms) => Ub(doms[i]))
  }

  /** The outcome of a step of the propagator and whether it turned the propagator passive. */
  datatype Run = Run(r: Outcome, passive: bool)

  /** The outcome of one pass, whether another pass is due, the single support (or -1) and
      whether the pass turned the propagator passive. */
  datatype PassResult = PassResult(r: Outcome, filter: bool, support: int, passive: bool)

  /** A value of a[0..k-1] that no other reaches above is their largest. */
  lemma MaxOfAttained(a: seq<int>, k: nat, s: nat)
    requires 0 < k <= |a| && s < k && forall i :: 0 <= i < k ==> a[i] <= a[s]
    ensures MaxOf(a, k) == a[s]
  {
  }

  /** {2, 3, 6} is not an interval: 4 lies between its bounds. */
  lemma GapDomain()
    ensures !Interval({2, 3, 6})
  {
    var d: Dom := {2, 3, 6};
    assert Lb(d) == 2 && Ub(d) == 6;
    assert 4 !in d;
  }

  /** All x's but one are unsupported exactly when that one is the only support. */
  lemma {:induction false} OnlySupport(doms: seq<Dom>, lb: int, k: nat, s: nat)
    requires k <= |doms| && NonEmpty(doms) && s < k && lb <= Ub(doms[s])
    ensures Unsupported(doms, lb, k) == k - 1 <==> forall i :: 0 <= i < k && i != s ==> Ub(doms[i]) < lb
  {
    if s < k - 1 {
      OnlySupport(doms, lb, k - 1, s);
    }
  }

  /** A signed literal "variable v takes a value in s"; pivot marks the literal on the
      variable whose event is being explained. */
  datatype Literal = Literal(v: nat, s: set<int>, pivot: bool)

  /** The literal holds of an assignment. */
  predicate LiteralHolds(a: seq<int>, l: Literal) {
    l.v < |a| && a[l.v] in l.s
  }

  /** Some literal of the clause holds of the assignment. */
  predicate ClauseHolds(a: seq<int>, lits: seq<Literal>) {
    exists l :: l in lits && LiteralHolds(a, l)
  }

  /** The literals for the x's below k whose front-domain minimum is m: x[i] below m. */
  function LowFrontLiterals(m: int, roots: seq<set<int>>, front: seq<Dom>, k: nat): (lits: seq<Literal>)
    requires k <= |front| <= |roots| && NonEmpty(front)
    ensures forall j :: 0 <= j < |lits| ==>
      lits[j].v < k && !lits[j].pivot && Lb(front[lits[j].v]) == m && lits[j].s == AtMost(roots[lits[j].v], m - 1)
    ensures forall i :: 0 <= i < k ==> (Lb(front[i]) == m <==> Literal(i, AtMost(roots[i], m - 1), false) in lits)
  {
    if k == 0 then []
    else
      var prev := LowFrontLiterals(m, roots, front, k - 1);
      if Lb(front[k - 1]) == m then prev + [Literal(k - 1, AtMost(roots[k - 1], m - 1), false)] else prev
  }

  /** The literals for the x's below k whose front-domain maximum is m: x[i] above m. */
  function HighFrontLiterals(m: int, roots: seq<set<int>>, front: seq<Dom>, k: nat): (lits: seq<Literal>)
    requires k <= |front| <= |roots| && NonEmpty(front)
    ensures forall j :: 0 <= j < |lits| ==>
      lits[j].v < k && !lits[j].pivot && Ub(front[lits[j].v]) == m && lits[j].s == AtLeast(roots[lits[j].v], m + 1)
    ensures forall i :: 0 <= i < k ==> (Ub(front[i]) == m <==> Literal(i, AtLeast(roots[i], m + 1), false) in lits)
  {
    if k == 0 then []
    else
      var prev := HighFrontLiterals(m, roots, front, k - 1);
      if Ub(front[k - 1]) == m then prev + [Literal(k - 1, AtLeast(roots[k - 1], m + 1), false)] else prev
  }

  class PropMax {
    const n: nat
    /** Whether each scope variable has an enumerated (rather than interval) domain. */
    const enumerated: seq<bool>
    /** Set once the constraint is entailed; the solver then stops calling the propagator. */
    var passive: bool

    constructor (n: nat, enumerated: seq<bool>)
      requires n > 0 && |enumerated| == n + 1
      ensures this.n == n && this.enumerated == enumerated && !passive
    {
      this.n := n;
      this.enumerated := enumerated;
      passive := false;
    }

    /** The domains of a scope [x[0..n-1], max]. */
    predicate Scope(doms: seq<Dom>) {
      n > 0 && |enumerated| == n + 1 && |doms| == n + 1 && NonEmpty(doms)
    }

    /** The constraint holds of an assignment to [x[0..n-1], max]. */
    predicate IsMax(a: seq<int>)
      requires n > 0 && |a| == n + 1
    {
      a[n] == MaxOf(a, n)
    }

    /** Every solution within doms survives in the outcome r. */
    ghost predicate KeepsSolutions(doms: seq<Dom>, r: Outcome)
      requires Scope(doms)
    {
      forall a :: IsAssignment(a, doms) && IsMax(a) ==> r.Propagated? && IsAssignment(a, r.doms)
    }

    /** Every assignment within doms where x[s] and max agree survives in r. */
    ghost predicate KeepsLinked(doms: seq<Dom>, s: nat, r: Outcome)
      requires Scope(doms) && s < n
    {
      forall a :: IsAssignment(a, doms) && a[s] == a[n] ==> r.Propagated? && IsAssignment(a, r.doms)
    }

    /** Every assignment within doms is a solution. */
    ghost predicate Entailed(doms: seq<Dom>)
      requires Scope(doms)
    {
      forall a :: IsAssignment(a, doms) ==> IsMax(a)
    }

    /** Every scope variable whose domain is not enumerated has an interval domain. */
    ghost predicate Intervals(doms: seq<Dom>)
      requires Scope(doms)
    {
      forall i :: 0 <= i <= n && !enumerated[i] ==> Interval(doms[i])
    }

    /** The x's capped at max's upper bound; max as it is. */
    ghost function Capped(doms: seq<Dom>): (c: seq<Dom>)
      requires Scope(doms)
      ensures |c| == n + 1 && c[n] == doms[n]
      ensures forall i :: 0 <= i < n ==> c[i] == AtMost(doms[i], Ub(doms[n]))
    {
      seq(n + 1, i requires 0 <= i <= n && Scope(doms) => if i < n then AtMost(doms[i], Ub(doms[n])) else doms[n])
    }

    /** When no x lies wholly above max, capping empties no domain. */
    lemma CappedNonEmpty(doms: seq<Dom>)
      requires Scope(doms) && forall i :: 0 <= i < n ==> Lb(doms[i]) <= Ub(doms[n])
      ensures NonEmpty(Capped(doms))
    {
      forall i | 0 <= i < n ensures Capped(doms)[i] != {} {
        assert Lb(doms[i]) in Capped(doms)[i];
      }
    }

    /** Lines one to three of a pass: every x capped at max's upper bound, then max
        restricted to the range from the largest lower bound to the largest upper bound
        of the capped x's. Contradiction when some x lies wholly above max or when no value
        of max is left in that range. */
    ghost function Bounded(doms: seq<Dom>): (r: Outcome)
      requires Scope(doms)
      ensures r.Propagated? ==> Scope(r.doms) && Shrinks(r.doms, doms)
    {
      if exists i :: 0 <= i < n && Lb(doms[i]) > Ub(doms[n]) then Contradiction
      else
        CappedNonEmpty(doms);
        var c := Capped(doms);
        var m := AtMost(AtLeast(doms[n], MaxOf(Lbs(c), n)), MaxOf(Ubs(c), n));
        if m == {} then Contradiction else Propagated(c[n := m])
    }

    /** After bounding, no x reaches above max's old upper bound; lb, the largest lower bound
        of the capped x's, lies between every x's lower bound and max's lower bound; and
        max's upper bound is reached by some x. */
    lemma BoundedBounds(doms: seq<Dom>, lb: int, ub: int)
      requires Scope(doms) && NonEmpty(Capped(doms)) && Bounded(doms).Propagated?
      requires lb == MaxOf(Lbs(Capped(doms)), n) && ub == MaxOf(Ubs(Capped(doms)), n)
      ensures var b := Bounded(doms).doms;
        && (forall i :: 0 <= i < n ==> Ub(b[i]) <= Ub(doms[n]))
        && (forall i :: 0 <= i < n ==> Lb(b[i]) <= lb)
        && lb <= Lb(b[n])
        && (exists i :: 0 <= i < n && Ub(b[n]) <= Ub(b[i]))
    {
      var b := Bounded(doms).doms;
      var c := Capped(doms);
      assert b == c[n := AtMost(AtLeast(doms[n], lb), ub)];
      assert Lb(b[n]) in AtLeast(doms[n], lb) && Ub(b[n]) in AtMost(doms[n], ub);
      forall i | 0 <= i < n ensures Ub(b[i]) <= Ub(doms[n]) && Lb(b[i]) <= lb {
        assert Ub(c[i]) in c[i];
        assert Lbs(c)[i] == Lb(c[i]);
      }
      var w :| 0 <= w < n && Ubs(c)[w] == ub;
      assert Ub(b[n]) <= Ub(b[w]);
    }

    /** Bounding keeps interval domains intervals. */
    lemma BoundedKeepsIntervals(doms: seq<Dom>)
      requires Scope(doms) && Intervals(doms) && Bounded(doms).Propagated?
      ensures Intervals(Bounded(doms).doms)
    {
      var r := Bounded(doms).doms;
      CappedNonEmpty(doms);
      var c := Capped(doms);
      forall i | 0 <= i <= n && !enumerated[i] ensures Interval(r[i]) {
        if i < n {
          IntervalAtMost(doms[i], Ub(doms[n]));
        } else {
          IntervalClamp(doms[n], MaxOf(Lbs(c), n), MaxOf(Ubs(c), n));
        }
      }
    }

    /** The first loop of a pass: every x is capped at max's upper bound, read once; lb and
        ub are the largest lower and upper bounds of the capped x's. Fails when some x lies
        wholly above max. */
    method CapAll(doms: seq<Dom>) returns (r: Outcome, changed: bool, lb: int, ub: int)
      requires Scope(doms)
      ensures r.Contradiction? <==> exists i :: 0 <= i < n && Lb(doms[i]) > Ub(doms[n])
      ensures r.Propagated? ==>
        && Scope(r.doms) && r.doms[n] == doms[n]
        && (forall i :: 0 <= i < n ==> r.doms[i] == AtMost(doms[i], Ub(doms[n])))
        && (changed <==> exists i :: 0 <= i < n && Ub(doms[i]) > Ub(doms[n]))
        && (forall i :: 0 <= i < n ==> Lb(r.doms[i]) <= lb && Ub(r.doms[i]) <= ub)
        && (exists i :: 0 <= i < n && Lb(r.doms[i]) == lb)
        && (exists i :: 0 <= i < n && Ub(r.doms[i]) == ub)
      ensures r.Propagated? ==>
        && NonEmpty(Capped(doms)) && r.doms == Capped(doms)
        && lb == MaxOf(Lbs(r.doms), n) && ub == MaxOf(Ubs(r.doms), n)
    {
      var max := Ub(doms[n]);
      var cur := doms;
      changed, lb, ub := false, 0, 0;
      ghost var wl, wu := 0, 0;
      for i := 0 to n
        invariant |cur| == n + 1 && cur[n] == doms[n]
        invariant forall j :: 0 <= j < i ==> cur[j] == AtMost(doms[j], max) && cur[j] != {}
        invariant forall j :: i <= j < n ==> cur[j] == doms[j]
        invariant changed <==> exists j :: 0 <= j < i && Ub(doms[j]) > max
        invariant forall j :: 0 <= j < i ==> Lb(cur[j]) <= lb && Ub(cur[j]) <= ub
        invariant i > 0 ==> wl < i && Lb(cur[wl]) == lb && wu < i && Ub(cur[wu]) == ub
      {
        var u := UpdateUpperBound(cur[i], max);
        if u.Wipeout? {
          assert Lb(doms[i]) > Ub(doms[n]);
          return Contradiction, changed, lb, ub;
        }
        changed := changed || u.changed;
        cur := cur[i := u.dom];
        var l, h := Lb(cur[i]), Ub(cur[i]);
        if i == 0 || l > lb {
          lb, wl := l, i;
        }
        if i == 0 || h > ub {
          ub, wu := h, i;
        }
      }
      r := Propagated(cur);
      CappedMax(doms, cur, lb, ub, wl, wu);
    }

    /** Domains capped position by position are Capped, and bounds that are at least every
        x's and attained by one are the largest. */
    lemma CappedMax(doms: seq<Dom>, c: seq<Dom>, lb: int, ub: int, wl: nat, wu: nat)
      requires Scope(doms) && |c| == n + 1 && c[n] == doms[n]
      requires forall j :: 0 <= j < n ==> c[j] == AtMost(doms[j], Ub(doms[n])) && c[j] != {}
      requires forall j :: 0 <= j < n ==> Lb(c[j]) <= lb && Ub(c[j]) <= ub
      requires wl < n && Lb(c[wl]) == lb && wu < n && Ub(c[wu]) == ub
      ensures NonEmpty(Capped(doms)) && c == Capped(doms) && Scope(c)
      ensures lb == MaxOf(Lbs(c), n) && ub == MaxOf(Ubs(c), n)
      ensures !exists i :: 0 <= i < n && Lb(doms[i]) > Ub(doms[n])
    {
      forall j | 0 <= j < n ensures Lb(doms[j]) <= Ub(doms[n]) {
        assert Lb(c[j]) in doms[j];
      }
      CappedNonEmpty(doms);
      assert Lbs(c)[wl] == lb && Ubs(c)[wu] == ub;
    }

    /** The back-propagation count: c is the number of x's whose upper bound is under lb and
        idx the last x that is not. */
    method CountSupports(doms: seq<Dom>, lb: int) returns (c: nat, idx: int)
      requires Scope(doms)
      ensures c == Unsupported(doms, lb, n)
      ensures -1 <= idx < n
      ensures idx == -1 <==> c == n
      ensures idx >= 0 ==> lb <= Ub(doms[idx]) && forall i :: idx < i < n ==> Ub(doms[i]) < lb
      ensures idx == LastSupport(doms, lb, n)
    {
      c, idx := 0, -1;
      for i := 0 to n
        invariant c == Unsupported(doms, lb, i)
        invariant idx == LastSupport(doms, lb, i)
        invariant -1 <= idx < i
        invariant idx == -1 <==> c == i
        invariant idx >= 0 ==> lb <= Ub(doms[idx]) && forall j :: idx < j < i ==> Ub(doms[j]) < lb
      {
        if Ub(doms[i]) < lb {
          c := c + 1;
        } else {
          idx := i;
        }
      }
    }

    /** When x[s] and max agree, each lies within the other's bounds. */
    lemma LinkedWithinBounds(doms: seq<Dom>, s: nat, a: seq<int>)
      requires Scope(doms) && s < n && IsAssignment(a, doms) && a[s] == a[n]
      ensures a[n] in AtMost(AtLeast(doms[n], Lb(doms[s])), Ub(doms[s]))
      ensures a[s] in AtMost(AtLeast(doms[s], Lb(doms[n])), Ub(doms[n]))
    {
      assert a[n] in doms[n] && a[s] in doms[s];
    }

    /** A round of the synchronisation loop that leaves both domains non-empty removes a
        value from one of them. */
    lemma SyncStepShrinks(doms: seq<Dom>, s: nat, m: Dom, x: Dom)
      requires Scope(doms) && s < n
      requires Lb(doms[n]) != Lb(doms[s]) || Ub(doms[n]) != Ub(doms[s])
      requires m == AtMost(AtLeast(doms[n], Lb(doms[s])), Ub(doms[s])) && m != {}
      requires x == AtMost(AtLeast(doms[s], Lb(m)), Ub(m)) && x != {}
      ensures |m| + |x| < |doms[n]| + |doms[s]|
    {
      SubsetCard(m, doms[n]);
      SubsetCard(x, doms[s]);
      if m == doms[n] && x == doms[s] {
        assert false;
      }
      if m != doms[n] {
        ProperSubsetCard(m, doms[n]);
      } else {
        ProperSubsetCard(x, doms[s]);
      }
    }

    /** The synchronisation loop for an enumerated single support x[s]: while max and x[s]
        disagree on a bound, max is restricted to x[s]'s bounds and then x[s] to max's new
        bounds. Contradiction when either runs empty; the domains reached when both bounds
        agree otherwise. */
    ghost function SyncOf(doms: seq<Dom>, s: nat): (r: Outcome)
      requires Scope(doms) && s < n
      ensures r.Propagated? ==> Scope(r.doms) && Shrinks(r.doms, doms)
      ensures r.Propagated? ==> forall j :: 0 <= j < n && j != s ==> r.doms[j] == doms[j]
      ensures r.Propagated? ==> Lb(r.doms[n]) == Lb(r.doms[s]) && Ub(r.doms[n]) == Ub(r.doms[s])
      decreases |doms[n]| + |doms[s]|
    {
      if Lb(doms[n]) == Lb(doms[s]) && Ub(doms[n]) == Ub(doms[s]) then Propagated(doms)
      else
        var m := AtMost(AtLeast(doms[n], Lb(doms[s])), Ub(doms[s]));
        if m == {} then Contradiction
        else
          var x := AtMost(AtLeast(doms[s], Lb(m)), Ub(m));
          if x == {} then Contradiction
          else
            SyncStepShrinks(doms, s, m, x);
            SyncOf(doms[n := m][s := x], s)
    }

    /** The synchronisation loop keeps interval domains intervals. */
    lemma {:induction false} SyncOfKeepsIntervals(doms: seq<Dom>, s: nat)
      requires Scope(doms) && s < n && Intervals(doms) && SyncOf(doms, s).Propagated?
      ensures Intervals(SyncOf(doms, s).doms)
      decreases |doms[n]| + |doms[s]|
    {
      if Lb(doms[n]) != Lb(doms[s]) || Ub(doms[n]) != Ub(doms[s]) {
        var m := AtMost(AtLeast(doms[n], Lb(doms[s])), Ub(doms[s]));
        var x := AtMost(AtLeast(doms[s], Lb(m)), Ub(m));
        var next := doms[n := m][s := x];
        forall i | 0 <= i <= n && !enumerated[i] ensures Interval(next[i]) {
          if i == n {
            IntervalClamp(doms[n], Lb(doms[s]), Ub(doms[s]));
          } else if i == s {
            IntervalClamp(doms[s], Lb(m), Ub(m));
          }
        }
        SyncStepShrinks(doms, s, m, x);
        SyncOfKeepsIntervals(next, s);
      }
    }

    /** One round of the synchronisation loop: max is restricted to x[s]'s
        bounds, then x[s] to max's new bounds. */
    method SyncRound(doms: seq<Dom>, s: nat) returns (r: Outcome)
      requires Scope(doms) && s < n
      ensures KeepsLinked(doms, s, r)
      ensures r.Contradiction? <==>
        || AtMost(AtLeast(doms[n], Lb(doms[s])), Ub(doms[s])) == {}
        || AtMost(AtLeast(doms[s], Lb(AtMost(AtLeast(doms[n], Lb(doms[s])), Ub(doms[s])))),
                  Ub(AtMost(AtLeast(doms[n], Lb(doms[s])), Ub(doms[s])))) == {}
      ensures r.Propagated? ==>
        var m := AtMost(AtLeast(doms[n], Lb(doms[s])), Ub(doms[s]));
        r.doms == doms[n := m][s := AtMost(AtLeast(doms[s], Lb(m)), Ub(m))]
    {
      forall a | IsAssignment(a, doms) && a[s] == a[n]
        ensures a[n] in AtMost(AtLeast(doms[n], Lb(doms[s])), Ub(doms[s]))
      {
        LinkedWithinBounds(doms, s, a);
      }
      var u1 := UpdateBounds(doms[n], Lb(doms[s]), Ub(doms[s]));
      if u1.Wipeout? {
        return Contradiction;
      }
      var cur := doms[n := u1.dom];
      forall a | IsAssignment(a, cur) && a[s] == a[n]
        ensures a[s] in AtMost(AtLeast(cur[s], Lb(cur[n])), Ub(cur[n]))
      {
        LinkedWithinBounds(cur, s, a);
      }
      var u2 := UpdateBounds(cur[s], Lb(cur[n]), Ub(cur[n]));
      if u2.Wipeout? {
        return Contradiction;
      }
      r := Propagated(cur[s := u2.dom]);
    }

    /** The inner loop for an enumerated single support x[s]: max and x[s] bound each other
        in turn until their lower bounds and their upper bounds agree. */
    method Sync(doms: seq<Dom>, s: nat) returns (r: Outcome)
      requires Scope(doms) && s < n
      ensures KeepsLinked(doms, s, r)
      ensures r.Propagated? ==>
        && Scope(r.doms) && Shrinks(r.doms, doms)
        && (forall j :: 0 <= j < n && j != s ==> r.doms[j] == doms[j])
        && Lb(r.doms[n]) == Lb(r.doms[s]) && Ub(r.doms[n]) == Ub(r.doms[s])
      ensures r == SyncOf(doms, s)
    {
      var cur := doms;
      while Lb(cur[n]) != Lb(cur[s]) || Ub(cur[n]) != Ub(cur[s])
        invariant Scope(cur) && SyncOf(cur, s) == SyncOf(doms, s)
        invariant KeepsLinked(doms, s, Propagated(cur))
        decreases |cur[n]| + |cur[s]|
      {
        ghost var prev := cur;
        var next := SyncRound(cur, s);
        if next.Contradiction? {
          return Contradiction;
        }
        cur := next.doms;
        SyncStepShrinks(prev, s, cur[n], cur[s]);
      }
      r := Propagated(cur);
    }

    /** The single-support step as a function: x[s] is restricted to max's bounds; then the
        propagator turns passive if max is instantiated, and otherwise an enumerated x[s]
        is synchronised with max. */
    ghost function BackPropagateOf(doms: seq<Dom>, s: nat): (b: Run)
      requires Scope(doms) && s < n
      ensures b.r.Propagated? ==> Scope(b.r.doms) && Shrinks(b.r.doms, doms)
      ensures b.passive <==> b.r.Propagated? && Instantiated(doms[n])
    {
      var x := AtMost(AtLeast(doms[s], Lb(doms[n])), Ub(doms[n]));
      if x == {} then Run(Contradiction, false)
      else if Instantiated(doms[n]) then Run(Propagated(doms[s := x]), true)
      else if enumerated[s] then Run(SyncOf(doms[s := x], s), false)
      else Run(Propagated(doms[s := x]), false)
    }

    /** The single-support step keeps interval domains intervals. */
    lemma BackPropagateOfKeepsIntervals(doms: seq<Dom>, s: nat)
      requires Scope(doms) && s < n && Intervals(doms) && BackPropagateOf(doms, s).r.Propagated?
      ensures Intervals(BackPropagateOf(doms, s).r.doms)
    {
      var x := AtMost(AtLeast(doms[s], Lb(doms[n])), Ub(doms[n]));
      var cur := doms[s := x];
      forall i | 0 <= i <= n && !enumerated[i] ensures Interval(cur[i]) {
        if i == s {
          IntervalClamp(doms[s], Lb(doms[n]), Ub(doms[n]));
        }
      }
      if !Instantiated(doms[n]) && enumerated[s] {
        SyncOfKeepsIntervals(cur, s);
      }
    }

    /** The single-support step: x[s] is bounded by max's bounds; if max is instantiated
        the propagator may become passive, otherwise an enumerated x[s] is synchronised
        with max. */
    method BackPropagate(doms: seq<Dom>, s: nat) returns (r: Outcome, passive: bool)
      requires Scope(doms) && s < n
      ensures KeepsLinked(doms, s, r)
      ensures r.Propagated? ==>
        && Scope(r.doms) && Shrinks(r.doms, doms)
        && (forall j :: 0 <= j < n && j != s ==> r.doms[j] == doms[j])
        && Lb(r.doms[n]) <= Lb(r.doms[s]) && Ub(r.doms[s]) <= Ub(r.doms[n])
      ensures passive <==> r.Propagated? && Instantiated(doms[n])
      ensures passive ==> r.doms[n] == doms[n] && r.doms[s] == doms[n]
      ensures r.Propagated? && !passive && enumerated[s] ==>
        Lb(r.doms[n]) == Lb(r.doms[s]) && Ub(r.doms[n]) == Ub(r.doms[s])
      ensures r.Propagated? && !passive && !enumerated[s] ==>
        r.doms[n] == doms[n] && r.doms[s] == AtMost(AtLeast(doms[s], Lb(doms[n])), Ub(doms[n]))
      ensures r == BackPropagateOf(doms, s).r && passive == BackPropagateOf(doms, s).passive
    {
      passive := false;
      forall a | IsAssignment(a, doms) && a[s] == a[n]
        ensures a[s] in AtMost(AtLeast(doms[s], Lb(doms[n])), Ub(doms[n]))
      {
        LinkedWithinBounds(doms, s, a);
      }
      var u := UpdateBounds(doms[s], Lb(doms[n]), Ub(doms[n]));
      if u.Wipeout? {
        return Contradiction, false;
      }
      var cur := doms[s := u.dom];
      if Instantiated(cur[n]) {
        InstantiatedBounds(cur[n]);
        assert u.dom == cur[n];
        passive := true;
        r := Propagated(cur);
      } else if enumerated[s] {
        r := Sync(cur, s);
      } else {
        r := Propagated(cur);
      }
    }

    /** In a solution, an x whose upper bound lies under max's lower bound is not the max,
        so the only candidate left must equal max. */
    lemma OnlySupportTakesMax(doms: seq<Dom>, s: nat, a: seq<int>)
      requires Scope(doms) && s < n
      requires forall i :: 0 <= i < n && i != s ==> Ub(doms[i]) < Lb(doms[n])
      requires IsAssignment(a, doms) && IsMax(a)
      ensures a[s] == a[n]
    {
      var m := MaxOf(a, n);
      var w :| 0 <= w < n && a[w] == m;
      assert a[w] in doms[w] && a[n] in doms[n];
    }

    /** With x[s] the only candidate, keeping the assignments where x[s] equals max keeps
        every solution. */
    lemma SupportKeepsSolutions(doms: seq<Dom>, s: nat, r: Outcome)
      requires Scope(doms) && s < n
      requires forall i :: 0 <= i < n && i != s ==> Ub(doms[i]) < Lb(doms[n])
      requires KeepsLinked(doms, s, r)
      ensures KeepsSolutions(doms, r)
    {
      forall a | IsAssignment(a, doms) && IsMax(a) ensures a[s] == a[n] {
        OnlySupportTakesMax(doms, s, a);
      }
    }

    /** Once max is fixed to v, its only candidate x[s] is fixed to v and every other x lies
        under v, every assignment is a solution. */
    lemma FixedSupportEntailed(doms: seq<Dom>, s: nat)
      requires Scope(doms) && s < n && Instantiated(doms[n]) && doms[s] == doms[n]
      requires forall i :: 0 <= i < n && i != s ==> Ub(doms[i]) < Lb(doms[n])
      ensures Entailed(doms)
    {
      InstantiatedBounds(doms[n]);
      forall a | IsAssignment(a, doms) ensures IsMax(a) {
        var m := MaxOf(a, n);
        assert a[s] in doms[s];
        forall i | 0 <= i < n ensures a[i] <= a[n] {
          assert a[i] in doms[i];
        }
        var w :| 0 <= w < n && a[w] == m;
        assert m <= a[n] && a[s] <= m;
      }
    }

    /** max's bounds agree with the x's: no x reaches above max's upper bound, which some x
        attains, and max's lower bound is at least every x's lower bound. */
    predicate CardConsistent(doms: seq<Dom>)
      requires Scope(doms)
    {
      && (forall i :: 0 <= i < n ==> Lb(doms[i]) <= Lb(doms[n]) && Ub(doms[i]) <= Ub(doms[n]))
      && (exists i :: 0 <= i < n && Ub(doms[i]) == Ub(doms[n]))
    }

    /** x[s] is the only x that can still be the max, and it lies within max's bounds. */
    predicate OnlySupporter(doms: seq<Dom>, s: nat)
      requires Scope(doms)
    {
      && s < n
      && Lb(doms[n]) <= Lb(doms[s]) && Ub(doms[s]) <= Ub(doms[n])
      && (forall i :: 0 <= i < n && i != s ==> Ub(doms[i]) < Lb(doms[n]))
    }

    /** A single support that shares max's bounds makes max's bounds agree with the x's. */
    lemma SupportCardConsistent(doms: seq<Dom>, s: nat)
      requires Scope(doms) && OnlySupporter(doms, s)
      requires Lb(doms[n]) == Lb(doms[s]) && Ub(doms[n]) == Ub(doms[s])
      ensures CardConsistent(doms)
    {
      assert Lb(doms[n]) in doms[n];
      forall i | 0 <= i < n ensures Lb(doms[i]) <= Lb(doms[n]) && Ub(doms[i]) <= Ub(doms[n]) {
        assert Lb(doms[i]) in doms[i];
      }
    }

    /** Capping every x at max's upper bound loses no solution; when some x lies wholly
        above max there is none. */
    lemma CapKeepsSolutions(doms: seq<Dom>, r: Outcome)
      requires Scope(doms)
      requires r.Contradiction? ==> exists i :: 0 <= i < n && Lb(doms[i]) > Ub(doms[n])
      requires r.Propagated? ==> |r.doms| == n + 1 && r.doms[n] == doms[n]
      requires r.Propagated? ==> forall i :: 0 <= i < n ==> r.doms[i] == AtMost(doms[i], Ub(doms[n]))
      ensures KeepsSolutions(doms, r)
    {
      forall a | IsAssignment(a, doms) && IsMax(a) ensures forall i :: 0 <= i < n ==> a[i] in AtMost(doms[i], Ub(doms[n])) {
        SolutionUnderCap(doms, a);
      }
    }

    /** In a solution no x lies above max. */
    lemma SolutionUnderCap(doms: seq<Dom>, a: seq<int>)
      requires Scope(doms) && IsAssignment(a, doms) && IsMax(a)
      ensures forall i :: 0 <= i < n ==> a[i] in AtMost(doms[i], Ub(doms[n]))
    {
      assert a[n] in doms[n];
      forall i | 0 <= i < n ensures a[i] in AtMost(doms[i], Ub(doms[n])) {
        assert a[i] in doms[i];
      }
    }

    /** In every solution, max lies at or above the largest lower bound lb of the x's and at
        or below the largest upper bound ub. */
    lemma CardBoundKeepsSolutions(doms: seq<Dom>, lb: int, ub: int, a: seq<int>)
      requires Scope(doms)
      requires exists i :: 0 <= i < n && Lb(doms[i]) == lb
      requires forall i :: 0 <= i < n ==> Ub(doms[i]) <= ub
      requires IsAssignment(a, doms) && IsMax(a)
      ensures a[n] in AtMost(AtLeast(doms[n], lb), ub)
    {
      var i :| 0 <= i < n && Lb(doms[i]) == lb;
      var j :| 0 <= j < n && a[j] == a[n];
      assert a[i] in doms[i] && a[j] in doms[j] && a[n] in doms[n];
    }

    /** Keeping every solution composes. */
    lemma KeepsSolutionsTrans(d1: seq<Dom>, d2: seq<Dom>, r: Outcome)
      requires Scope(d1) && Scope(d2)
      requires KeepsSolutions(d1, Propagated(d2)) && KeepsSolutions(d2, r)
      ensures KeepsSolutions(d1, r)
    {
    }

    /** Capping changed a domain exactly when some x reached above max. */
    lemma CapChanged(doms: seq<Dom>, capped: seq<Dom>)
      requires Scope(doms) && |capped| == n + 1 && capped[n] == doms[n]
      requires forall i :: 0 <= i < n ==> capped[i] == AtMost(doms[i], Ub(doms[n]))
      ensures (exists i :: 0 <= i < n && Ub(doms[i]) > Ub(doms[n])) <==> capped != doms
    {
      if exists i :: 0 <= i < n && Ub(doms[i]) > Ub(doms[n]) {
        var i :| 0 <= i < n && Ub(doms[i]) > Ub(doms[n]);
        assert Ub(doms[i]) !in capped[i];
      } else {
        forall i | 0 <= i <= n ensures capped[i] == doms[i] {
          if i < n {
            assert capped[i] == AtMost(doms[i], Ub(doms[n]));
          }
        }
      }
    }

    /** Lines two and three of a pass: max's lower bound is raised to lb and its upper
        bound lowered to ub. */
    method BoundCard(doms: seq<Dom>, lb: int, ub: int) returns (r: Outcome, changed: bool)
      requires Scope(doms)
      requires exists i :: 0 <= i < n && Lb(doms[i]) == lb
      requires forall i :: 0 <= i < n ==> Ub(doms[i]) <= ub
      ensures KeepsSolutions(doms, r)
      ensures r.Contradiction? <==> AtMost(AtLeast(doms[n], lb), ub) == {}
      ensures r.Propagated? ==>
        && r.doms == doms[n := AtMost(AtLeast(doms[n], lb), ub)]
        && (changed <==> r.doms != doms)
    {
      changed := false;
      forall a | IsAssignment(a, doms) && IsMax(a) ensures a[n] in AtMost(AtLeast(doms[n], lb), ub) {
        CardBoundKeepsSolutions(doms, lb, ub, a);
      }
      var u1 := UpdateLowerBound(doms[n], lb);
      if u1.Wipeout? {
        return Contradiction, false;
      }
      var u2 := UpdateUpperBound(u1.dom, ub);
      if u2.Wipeout? {
        return Contradiction, false;
      }
      r := Propagated(doms[n := u2.dom]);
      changed := u1.changed || u2.changed;
      if u1.changed {
        assert Lb(doms[n]) !in u2.dom;
      } else if u2.changed {
        assert Ub(u1.dom) !in u2.dom;
      } else {
        assert u2.dom == doms[n];
      }
    }

    /** Lines one to three of a pass: cap the x's at max's upper bound, then bound max by
        the largest lower and upper bounds among the capped x's. changed says whether any
        of these updates removed a value; lb is the largest lower bound of the x's. */
    method BoundPass(doms: seq<Dom>) returns (r: Outcome, changed: bool, lb: int)
      requires Scope(doms)
      ensures KeepsSolutions(doms, r)
      ensures r.Propagated? ==>
        && Scope(r.doms) && Shrinks(r.doms, doms)
        && (forall i :: 0 <= i < n ==> Ub(r.doms[i]) <= Ub(doms[n]))
        && (forall i :: 0 <= i < n ==> Lb(r.doms[i]) <= lb)
        && lb <= Lb(r.doms[n])
        && (exists i :: 0 <= i < n && Ub(r.doms[n]) <= Ub(r.doms[i]))
        && (changed <==> r.doms != doms)
      ensures r == Bounded(doms)
      ensures Intervals(doms) && r.Propagated? ==> Intervals(r.doms)
    {
      var capped, f, ub;
      capped, f, lb, ub := CapAll(doms);
      CapKeepsSolutions(doms, capped);
      if capped.Contradiction? {
        return Contradiction, false, lb;
      }
      var cur := capped.doms;
      CapChanged(doms, cur);
      var c;
      r, c := BoundCard(cur, lb, ub);
      KeepsSolutionsTrans(doms, cur, r);
      changed := f || c;
      assert r == Bounded(doms);
      if r.Contradiction? {
        return;
      }
      BoundedBounds(doms, lb, ub);
      if Intervals(doms) {
        BoundedKeepsIntervals(doms);
      }
      assert f ==> r.doms != doms by {
        if f {
          var i :| 0 <= i < n && Ub(doms[i]) > Ub(doms[n]);
          assert Ub(r.doms[i]) < Ub(doms[i]);
        }
      }
    }

    /** With x[s] the only x reaching max's lower bound, and max bounded from below by every
        x's lower bound and from above by some x's upper bound, the single-support step
        leaves x[s] the only support, within max's bounds; it turns the propagator passive
        only when the constraint is entailed; and on interval domains x[s] and max end with
        the same bounds, so that max's bounds agree with the x's. */
    lemma BackPropagateOfSupport(cur: seq<Dom>, s: nat)
      requires Scope(cur) && s < n
      requires forall i :: 0 <= i < n && i != s ==> Ub(cur[i]) < Lb(cur[n])
      requires forall i :: 0 <= i < n ==> Lb(cur[i]) <= Lb(cur[n])
      requires exists i :: 0 <= i < n && Ub(cur[n]) <= Ub(cur[i])
      ensures var b := BackPropagateOf(cur, s);
        b.r.Propagated? ==> OnlySupporter(b.r.doms, s)
      ensures var b := BackPropagateOf(cur, s);
        b.passive ==> b.r.Propagated? && Instantiated(b.r.doms[n]) && Entailed(b.r.doms)
      ensures var b := BackPropagateOf(cur, s);
        b.r.Propagated? && (Intervals(cur) || b.passive || enumerated[s]) ==>
          Lb(b.r.doms[n]) == Lb(b.r.doms[s]) && Ub(b.r.doms[n]) == Ub(b.r.doms[s]) && CardConsistent(b.r.doms)
      ensures var b := BackPropagateOf(cur, s);
        Intervals(cur) && b.r.Propagated? ==> Intervals(b.r.doms)
    {
      var b := BackPropagateOf(cur, s);
      if b.r.Contradiction? {
        return;
      }
      var x := AtMost(AtLeast(cur[s], Lb(cur[n])), Ub(cur[n]));
      var mid := cur[s := x];
      SubsetBounds(x, cur[s]);
      assert Lb(x) in AtLeast(cur[s], Lb(cur[n])) && Ub(x) in AtMost(cur[s], Ub(cur[n]));
      var r := b.r.doms;
      if Instantiated(cur[n]) || !enumerated[s] {
        assert r == mid;
      } else {
        assert b.r == SyncOf(mid, s);
        SubsetBounds(r[n], cur[n]);
        forall i | 0 <= i < n && i != s ensures Ub(r[i]) < Lb(r[n]) {
          assert r[i] == cur[i];
        }
      }
      assert OnlySupporter(r, s);
      if Instantiated(cur[n]) {
        InstantiatedBounds(cur[n]);
        assert x == cur[n];
        FixedSupportEntailed(r, s);
      }
      if Intervals(cur) {
        BackPropagateOfKeepsIntervals(cur, s);
        if !Instantiated(cur[n]) && !enumerated[s] {
          var w :| 0 <= w < n && Ub(cur[n]) <= Ub(cur[w]);
          assert Lb(cur[n]) in cur[n];
          assert w == s;
          IntervalClampBounds(cur[s], Lb(cur[n]), Ub(cur[n]));
        }
      }
      if Intervals(cur) || b.passive || enumerated[s] {
        SupportCardConsistent(r, s);
      }
    }

    /** The second half of a pass, on domains cur already bounded (max's lower bound lb is at
        least every x's, and some x reaches max's upper bound): count the x's under lb; when
        all but one are, back-propagate onto that one, which is the support. support is -1
        otherwise, and the domains are left as they are. */
    method SupportStep(cur: seq<Dom>, lb: int) returns (r: Outcome, support: int, passive: bool)
      requires Scope(cur) && lb == Lb(cur[n])
      requires forall i :: 0 <= i < n ==> Lb(cur[i]) <= lb
      requires exists i :: 0 <= i < n && Ub(cur[n]) <= Ub(cur[i])
      ensures KeepsSolutions(cur, r)
      ensures -1 <= support < n
      ensures support == (if Unsupported(cur, lb, n) == n - 1 then LastSupport(cur, lb, n) else -1)
      ensures support >= 0 ==> r == BackPropagateOf(cur, support).r && passive == BackPropagateOf(cur, support).passive
      ensures support < 0 ==> r == Propagated(cur) && !passive
      ensures r.Propagated? ==> Scope(r.doms) && Shrinks(r.doms, cur)
      ensures support >= 0 && r.Propagated? ==> OnlySupporter(r.doms, support)
      ensures passive ==> r.Propagated? && support >= 0 && Instantiated(r.doms[n]) && Entailed(r.doms)
      ensures support >= 0 && r.Propagated? && (Intervals(cur) || passive || enumerated[support]) ==>
        && Lb(r.doms[n]) == Lb(r.doms[support]) && Ub(r.doms[n]) == Ub(r.doms[support])
        && CardConsistent(r.doms)
      ensures Intervals(cur) && r.Propagated? ==> Intervals(r.doms)
    {
      support, passive := -1, false;
      r := Propagated(cur);
      var c, idx := CountSupports(cur, lb);
      // max's upper bound is reached by some x, so not every x is unsupported
      assert c < n by {
        var w :| 0 <= w < n && Ub(cur[n]) <= Ub(cur[w]);
        assert Lb(cur[n]) in cur[n];
      }
      if c == n - 1 {
        OnlySupport(cur, lb, n, idx);
        support := idx;
        r, passive := BackPropagate(cur, idx);
        SupportKeepsSolutions(cur, idx, r);
        BackPropagateOfSupport(cur, idx);
      }
    }

    /** One pass as a function: bound the x's and max against each other; then, when all
        x's but one lie under max's lower bound, back-propagate onto that one and stop.
        Otherwise another pass is due exactly when the bounding changed a domain. */
    ghost function PassOf(doms: seq<Dom>): (p: PassResult)
      requires Scope(doms)
      ensures p.r.Propagated? ==> Scope(p.r.doms) && Shrinks(p.r.doms, doms)
      ensures p.r.Propagated? && p.filter ==> p.r.doms != doms
    {
      var b := Bounded(doms);
      if b.Contradiction? then PassResult(Contradiction, false, -1, false)
      else
        var lb := Lb(b.doms[n]);
        if Unsupported(b.doms, lb, n) == n - 1 then
          var s := LastSupport(b.doms, lb, n);
          var bp := BackPropagateOf(b.doms, s);
          PassResult(bp.r, false, s, bp.passive)
        else PassResult(Propagated(b.doms), b.doms != doms, -1, false)
    }

    /** One pass of the propagation loop: bound the x's and max against each other, then
        back-propagate onto the only x that can still be the max, if there is one. filter
        says whether to run another pass; support is that x, or -1 when there is none. */
    method Pass(doms: seq<Dom>) returns (r: Outcome, filter: bool, support: int, passive: bool)
      requires Scope(doms)
      ensures KeepsSolutions(doms, r)
      ensures r.Propagated? ==> Scope(r.doms) && Shrinks(r.doms, doms)
      ensures r.Propagated? ==> forall i :: 0 <= i < n ==> Ub(r.doms[i]) <= Ub(doms[n])
      ensures r.Propagated? && filter ==> r.doms != doms
      ensures r.Propagated? && support < 0 && !filter ==> CardConsistent(r.doms)
      ensures support >= 0 && r.Propagated? ==> !filter && OnlySupporter(r.doms, support)
      ensures passive ==> r.Propagated? && support >= 0 && Instantiated(r.doms[n]) && Entailed(r.doms)
      ensures support >= 0 && r.Propagated? && !passive && enumerated[support] ==>
        Lb(r.doms[n]) == Lb(r.doms[support]) && Ub(r.doms[n]) == Ub(r.doms[support])
      ensures r == PassOf(doms).r && support == PassOf(doms).support && passive == PassOf(doms).passive
      ensures r.Propagated? ==> filter == PassOf(doms).filter
      ensures passive <==> support >= 0 && r.Propagated? && Bounded(doms).Propagated? && Instantiated(Bounded(doms).doms[n])
      ensures Intervals(doms) && r.Propagated? ==> Intervals(r.doms)
      ensures Intervals(doms) && r.Propagated? && support >= 0 ==>
        Lb(r.doms[n]) == Lb(r.doms[support]) && Ub(r.doms[n]) == Ub(r.doms[support])
      ensures Intervals(doms) && r.Propagated? && !filter ==> CardConsistent(r.doms)
    {
      support, passive := -1, false;
      var lb;
      r, filter, lb := BoundPass(doms);
      if r.Contradiction? {
        return;
      }
      var cur := r.doms;
      lb := if lb > Lb(cur[n]) then lb else Lb(cur[n]);
      r, support, passive := SupportStep(cur, lb);
      assert PassOf(doms).r == r && PassOf(doms).support == support && PassOf(doms).passive == passive;
      if support >= 0 {
        filter := false;
        if r.Propagated? {
          ShrinksTrans(r.doms, cur, doms);
          forall i | 0 <= i < n ensures Ub(r.doms[i]) <= Ub(doms[n]) {
            SubsetBounds(r.doms[i], cur[i]);
          }
        }
      } else if !filter {
        assert cur == doms;
      }
      KeepsSolutionsTrans(doms, cur, r);
    }

    /** The propagation loop as a function: passes run until one neither changes a bound nor
        back-propagates, or until one fails. The result and whether that last pass turned
        the propagator passive. */
    ghost function Fix(doms: seq<Dom>): (f: Run)
      requires Scope(doms)
      ensures f.r.Propagated? ==> Scope(f.r.doms) && Shrinks(f.r.doms, doms)
      ensures f.passive ==> f.r.Propagated?
      decreases TotalSize(doms)
    {
      var p := PassOf(doms);
      if p.r.Contradiction? then Run(Contradiction, false)
      else if !p.filter then Run(p.r, p.passive)
      else
        ShrinksSize(p.r.doms, doms);
        Fix(p.r.doms)
    }

    /** A pass keeps interval domains intervals. */
    lemma PassOfKeepsIntervals(doms: seq<Dom>)
      requires Scope(doms) && Intervals(doms) && PassOf(doms).r.Propagated?
      ensures Intervals(PassOf(doms).r.doms)
    {
      var b := Bounded(doms);
      BoundedKeepsIntervals(doms);
      var lb := Lb(b.doms[n]);
      if Unsupported(b.doms, lb, n) == n - 1 {
        BackPropagateOfKeepsIntervals(b.doms, LastSupport(b.doms, lb, n) as nat);
      }
    }

    /** On interval domains, a pass that back-propagates leaves its support the only x that
        can be the max, with max's bounds exactly. */
    lemma PassOfSupport(doms: seq<Dom>)
      requires Scope(doms) && Intervals(doms)
      requires PassOf(doms).r.Propagated? && PassOf(doms).support >= 0
      ensures var p := PassOf(doms);
        && p.support < n && OnlySupporter(p.r.doms, p.support)
        && Lb(p.r.doms[n]) == Lb(p.r.doms[p.support]) && Ub(p.r.doms[n]) == Ub(p.r.doms[p.support])
    {
      CappedNonEmpty(doms);
      var c := Capped(doms);
      BoundedBounds(doms, MaxOf(Lbs(c), n), MaxOf(Ubs(c), n));
      var b := Bounded(doms).doms;
      var lb := Lb(b[n]);
      var s := LastSupport(b, lb, n) as nat;
      OnlySupport(b, lb, n, s);
      BoundedKeepsIntervals(doms);
      BackPropagateOfSupport(b, s);
    }

    /** When x[s] is the only x that can be the max and shares max's bounds, bounding
        changes nothing. */
    lemma SupportBoundedFixed(doms: seq<Dom>, s: nat)
      requires Scope(doms) && OnlySupporter(doms, s)
      requires Lb(doms[n]) == Lb(doms[s]) && Ub(doms[n]) == Ub(doms[s])
      ensures Bounded(doms) == Propagated(doms)
    {
      forall i | 0 <= i < n ensures Lb(doms[i]) <= Lb(doms[n]) && Ub(doms[i]) <= Ub(doms[n]) {
        assert Lb(doms[i]) in doms[i];
        assert Lb(doms[n]) in doms[n];
      }
      CappedNonEmpty(doms);
      var c := Capped(doms);
      forall i | 0 <= i < n ensures c[i] == doms[i] {
        ClampWithinBounds(doms[i], Lb(doms[i]), Ub(doms[n]));
      }
      assert c == doms;
      MaxOfAttained(Lbs(c), n, s);
      MaxOfAttained(Ubs(c), n, s);
      ClampWithinBounds(doms[n], Lb(doms[n]), Ub(doms[n]));
      assert c[n := doms[n]] == doms;
    }

    /** When x[s] shares max's bounds, the single-support step changes nothing. */
    lemma SupportBackFixed(doms: seq<Dom>, s: nat)
      requires Scope(doms) && s < n
      requires Lb(doms[n]) == Lb(doms[s]) && Ub(doms[n]) == Ub(doms[s])
      ensures BackPropagateOf(doms, s).r == Propagated(doms)
    {
      ClampWithinBounds(doms[s], Lb(doms[n]), Ub(doms[n]));
      assert doms[s := doms[s]] == doms;
      if !Instantiated(doms[n]) && enumerated[s] {
        assert SyncOf(doms, s) == Propagated(doms);
      }
    }

    /** When x[s] is the only x that can be the max and shares max's bounds, a pass changes
        nothing and asks for no further pass. */
    lemma SupportFixpoint(doms: seq<Dom>, s: nat)
      requires Scope(doms) && OnlySupporter(doms, s)
      requires Lb(doms[n]) == Lb(doms[s]) && Ub(doms[n]) == Ub(doms[s])
      ensures PassOf(doms).r == Propagated(doms) && !PassOf(doms).filter && PassOf(doms).support == s
    {
      SupportBoundedFixed(doms, s);
      var lb := Lb(doms[n]);
      OnlySupport(doms, lb, n, s);
      assert LastSupport(doms, lb, n) == s;
      SupportBackFixed(doms, s);
    }

    /** On interval domains the propagation loop stops at a fixpoint: one more pass on its
        result changes nothing and asks for no further pass. The loop leaves after a
        back-propagation without another pass, so this rests on the support getting max's
        bounds exactly, which a non-enumerated domain with a gap need not do. */
    lemma {:induction false} FixIsFixpoint(doms: seq<Dom>)
      requires Scope(doms) && Intervals(doms) && Fix(doms).r.Propagated?
      ensures PassOf(Fix(doms).r.doms).r == Fix(doms).r && !PassOf(Fix(doms).r.doms).filter
      decreases TotalSize(doms)
    {
      var p := PassOf(doms);
      if p.filter {
        ShrinksSize(p.r.doms, doms);
        PassOfKeepsIntervals(doms);
        FixIsFixpoint(p.r.doms);
      } else if p.support < 0 {
        assert p.r == Propagated(doms);
      } else {
        PassOfSupport(doms);
        SupportFixpoint(p.r.doms, p.support as nat);
      }
    }

    /** Bounding one x with the non-enumerated domain {2, 3, 6} against max in [4, 7]. */
    lemma GapBoundedFirst()
      requires n == 1 && enumerated == [false, false]
      ensures Bounded([{2, 3, 6}, {4, 5, 6, 7}]) == Propagated([{2, 3, 6}, {4, 5, 6}])
    {
      var d := [{2, 3, 6}, {4, 5, 6, 7}];
      assert Lb(d[0]) == 2 && Ub(d[0]) == 6 && Ub(d[1]) == 7;
      ClampWithinBounds(d[0], 2, 7);
      assert Capped(d)[0] == d[0] && Capped(d)[1] == d[1];
      assert Capped(d) == d;
      assert Lbs(d)[0] == 2 && Ubs(d)[0] == 6;
      assert AtMost(AtLeast(d[1], 2), 6) == {4, 5, 6};
    }

    /** The first pass: x is the only support, gets max's bounds [4, 6] and so becomes {6};
        the loop then stops. */
    lemma GapPassFirst()
      requires n == 1 && enumerated == [false, false]
      ensures PassOf([{2, 3, 6}, {4, 5, 6, 7}]) == PassResult(Propagated([{6}, {4, 5, 6}]), false, 0, false)
    {
      GapBoundedFirst();
      var b := [{2, 3, 6}, {4, 5, 6}];
      assert Lb(b[1]) == 4 && Ub(b[1]) == 6 && Ub(b[0]) == 6;
      assert Unsupported(b, 4, 1) == 0 && LastSupport(b, 4, 1) == 0;
      assert AtMost(AtLeast(b[0], 4), 6) == {6};
      assert !Instantiated(b[1]) by { assert {4, 5} <= b[1]; SubsetCard({4, 5}, b[1]); }
      assert b[0 := {6}] == [{6}, {4, 5, 6}];
    }

    /** Bounding again after the first run fixes max to 6. */
    lemma GapBoundedSecond()
      requires n == 1 && enumerated == [false, false]
      ensures Bounded([{6}, {4, 5, 6}]) == Propagated([{6}, {6}])
    {
      var e := [{6}, {4, 5, 6}];
      assert Lb(e[0]) == 6 && Ub(e[0]) == 6 && Ub(e[1]) == 6;
      ClampWithinBounds(e[0], 6, 6);
      assert Capped(e)[0] == e[0] && Capped(e)[1] == e[1];
      assert Capped(e) == e;
      assert Lbs(e)[0] == 6 && Ubs(e)[0] == 6;
      assert AtMost(AtLeast(e[1], 6), 6) == {6};
    }

    /** The second run's pass: max is now fixed, so x keeps {6} and the loop stops. */
    lemma GapPassSecond()
      requires n == 1 && enumerated == [false, false]
      ensures PassOf([{6}, {4, 5, 6}]).r == Propagated([{6}, {6}]) && !PassOf([{6}, {4, 5, 6}]).filter
    {
      GapBoundedSecond();
      var c := [{6}, {6}];
      assert Lb(c[1]) == 6 && Ub(c[1]) == 6 && Ub(c[0]) == 6;
      assert Unsupported(c, 6, 1) == 0 && LastSupport(c, 6, 1) == 0;
      ClampWithinBounds(c[0], 6, 6);
      assert Instantiated(c[1]);
      assert c[0 := {6}] == c;
    }

    /** Without interval domains the loop can stop short of a fixpoint: for one x with the
        non-enumerated domain {2, 3, 6} and max in [4, 7], propagation leaves x at {6} and
        max at {4, 5, 6}, and a second run fixes max to 6. */
    lemma GapStopsShort()
      requires n == 1 && enumerated == [false, false]
      ensures Fix([{2, 3, 6}, {4, 5, 6, 7}]).r == Propagated([{6}, {4, 5, 6}])
      ensures Fix([{6}, {4, 5, 6}]).r == Propagated([{6}, {6}])
      ensures !Intervals([{2, 3, 6}, {4, 5, 6, 7}])
    {
      var d, e := [{2, 3, 6}, {4, 5, 6, 7}], [{6}, {4, 5, 6}];
      GapPassFirst();
      assert Fix(d) == Run(PassOf(d).r, PassOf(d).passive);
      GapPassSecond();
      assert Fix(e) == Run(PassOf(e).r, PassOf(e).passive);
      GapDomain();
    }

    /** Propagation is idempotent on interval domains: a second run on its result gives the
        same domains. */
    lemma FixIdempotent(doms: seq<Dom>)
      requires Scope(doms) && Intervals(doms) && Fix(doms).r.Propagated?
      ensures Fix(Fix(doms).r.doms).r == Fix(doms).r
    {
      FixIsFixpoint(doms);
    }

    /** Propagation: passes run until one neither changes a bound nor back-propagates. The
        result keeps every solution; no x reaches above max; and either max's bounds agree
        with the x's or a single x can still be the max. On interval domains the result is a
        fixpoint of a pass. The propagator becomes passive only once the constraint is
        entailed. */
    method Propagate(doms: seq<Dom>) returns (r: Outcome)
      requires Scope(doms)
      modifies this
      ensures KeepsSolutions(doms, r)
      ensures r.Propagated? ==> Scope(r.doms) && Shrinks(r.doms, doms)
      ensures r.Propagated? ==> forall i :: 0 <= i < n ==> Ub(r.doms[i]) <= Ub(r.doms[n])
      ensures r.Propagated? ==> CardConsistent(r.doms) || exists s: nat :: OnlySupporter(r.doms, s)
      ensures old(passive) ==> passive
      ensures passive && !old(passive) ==> r.Propagated? && Entailed(r.doms)
      ensures r == Fix(doms).r && passive == (old(passive) || Fix(doms).passive)
      ensures Intervals(doms) && r.Propagated? ==> CardConsistent(r.doms)
      ensures Intervals(doms) && r.Propagated? ==> PassOf(r.doms).r == r && !PassOf(r.doms).filter
    {
      var cur := doms;
      while true
        invariant Scope(cur) && Shrinks(cur, doms) && KeepsSolutions(doms, Propagated(cur))
        invariant Fix(cur) == Fix(doms)
        invariant Intervals(doms) ==> Intervals(cur)
        invariant passive == old(passive)
        decreases TotalSize(cur)
      {
        var p, filter, support, pas := Pass(cur);
        KeepsSolutionsTrans(doms, cur, p);
        if p.Contradiction? {
          assert Fix(cur).r == Contradiction;
          return Contradiction;
        }
        ShrinksTrans(p.doms, cur, doms);
        if !filter {
          assert Fix(cur) == Run(p, pas);
          if support >= 0 {
            assert OnlySupporter(p.doms, support as nat);
            assert Lb(p.doms[n]) in p.doms[n];
          }
          if pas {
            passive := true;
          }
          if Intervals(doms) {
            FixIsFixpoint(doms);
          }
          return p;
        }
        ShrinksSize(p.doms, cur);
        assert Fix(cur) == Fix(p.doms);
        cur := p.doms;
      }
    }

    /** Entailment from the current domains, case by case in the order of the checks:
        FALSE when some x lies wholly above max or every x lies wholly under it; otherwise
        UNDEFINED when some x can still exceed max; otherwise TRUE when max is fixed to a
        value some x is fixed to; UNDEFINED otherwise. */
    function Entailment(doms: seq<Dom>): ESat
      requires Scope(doms)
    {
      var ub := Ub(doms[n]);
      if (exists i :: 0 <= i < n && Lb(doms[i]) > ub) || (forall i :: 0 <= i < n ==> Ub(doms[i]) < Lb(doms[n])) then False
      else if exists i :: 0 <= i < n && Ub(doms[i]) > ub then Undefined
      else if Instantiated(doms[n]) && exists i :: 0 <= i < n && doms[i] == {ub} then True
      else Undefined
    }

    /** In a solution no x lies wholly above max, and max lies under some x's upper bound. */
    lemma SolutionMeetsBounds(doms: seq<Dom>, a: seq<int>)
      requires Scope(doms) && IsAssignment(a, doms)
      ensures IsMax(a) ==> forall i :: 0 <= i < n ==> Lb(doms[i]) <= Ub(doms[n])
      ensures IsMax(a) ==> exists i :: 0 <= i < n && Lb(doms[n]) <= Ub(doms[i])
    {
      if IsMax(a) {
        assert a[n] in doms[n];
        forall i | 0 <= i < n ensures Lb(doms[i]) <= Ub(doms[n]) {
          assert a[i] in doms[i];
        }
        var j :| 0 <= j < n && a[j] == a[n];
        assert a[j] in doms[j];
      }
    }

    /** FALSE is sound: no assignment of the domains is a solution. */
    lemma EntailmentFalseSound(doms: seq<Dom>, a: seq<int>)
      requires Scope(doms) && Entailment(doms) == False && IsAssignment(a, doms)
      ensures !IsMax(a)
    {
      SolutionMeetsBounds(doms, a);
    }

    /** TRUE is sound: every assignment of the domains is a solution. */
    lemma EntailmentTrueSound(doms: seq<Dom>, a: seq<int>)
      requires Scope(doms) && Entailment(doms) == True && IsAssignment(a, doms)
      ensures IsMax(a)
    {
      var ub := Ub(doms[n]);
      InstantiatedBounds(doms[n]);
      var w :| 0 <= w < n && doms[w] == {ub};
      assert a[n] in doms[n] && a[w] in doms[w];
      forall i | 0 <= i < n ensures a[i] <= a[n] {
        assert a[i] in doms[i];
      }
      var j :| 0 <= j < n && a[j] == MaxOf(a, n);
    }

    /** The entailment check as the three scans over the x's. */
    method IsEntailed(doms: seq<Dom>) returns (r: ESat)
      requires Scope(doms)
      ensures r == Entailment(doms)
    {
      var ub := Ub(doms[n]);
      var maxUb := Ub(doms[0]);
      for i := 0 to n
        invariant forall j :: 0 <= j < i ==> Lb(doms[j]) <= ub && Ub(doms[j]) <= maxUb
        invariant exists j :: 0 <= j < n && j <= i && Ub(doms[j]) == maxUb
      {
        maxUb := if Ub(doms[i]) > maxUb then Ub(doms[i]) else maxUb;
        if Lb(doms[i]) > ub {
          return False;
        }
      }
      if maxUb < Lb(doms[n]) {
        return False;
      }
      for i := 0 to n
        invariant forall j :: 0 <= j < i ==> Ub(doms[j]) <= ub
      {
        if Ub(doms[i]) > ub {
          return Undefined;
        }
      }
      if Instantiated(doms[n]) {
        for i := 0 to n
          invariant forall j :: 0 <= j < i ==> doms[j] != {ub}
        {
          if doms[i] == {ub} {
            return True;
          }
        }
      }
      return Undefined;
    }

    /** The literals explaining the event at pivot p (max when p == n) that raised the lower
        bound (incLow) or lowered the upper bound (decUpp) to m. roots are the root sets of
        the scope variables and front the domains of the x's at the front of the implication
        graph. */
    function Explain(p: nat, incLow: bool, decUpp: bool, m: int, roots: seq<set<int>>, front: seq<Dom>): (lits: seq<Literal>)
      requires p <= n && |roots| == n + 1 && |front| == n && NonEmpty(front)
      ensures forall j :: 0 <= j < |lits| ==> lits[j].v <= n && lits[j].s <= roots[lits[j].v]
      ensures forall j :: 0 <= j < |lits| ==> (lits[j].pivot <==> (j == 0 && p == n) || (j == 1 && p < n))
      ensures !(incLow || decUpp) ==> lits == []
      ensures incLow || decUpp ==>
        var k := if p == n then 0 else 1;
        && k < |lits| && lits[k].v == p
        && lits[k].s == if incLow then AtLeast(roots[p], m) else AtMost(roots[p], m)
    {
      if p == n then
        if incLow then [Literal(n, AtLeast(roots[n], m), true)] + LowFrontLiterals(m, roots, front, n)
        else if decUpp then [Literal(n, AtMost(roots[n], m), true)] + HighFrontLiterals(m, roots, front, n)
        else []
      else
        if incLow then [Literal(n, AtMost(roots[n], m - 1), false), Literal(p, AtLeast(roots[p], m), true)]
        else if decUpp then [Literal(n, AtLeast(roots[n], m + 1), false), Literal(p, AtMost(roots[p], m), true)]
        else []
    }

    /** The explanation of an x's upper bound lowered to m is a valid clause: in every
        solution within the root sets, either that x is at most m or max is above m. */
    lemma ExplainDecreasedX(p: nat, m: int, roots: seq<set<int>>, front: seq<Dom>, a: seq<int>)
      requires p < n && |roots| == n + 1 && |front| == n && NonEmpty(front)
      requires n > 0 && |a| == n + 1 && IsMax(a) && forall k :: 0 <= k <= n ==> a[k] in roots[k]
      ensures ClauseHolds(a, Explain(p, false, true, m, roots, front))
    {
      var lits := Explain(p, false, true, m, roots, front);
      if a[p] <= m {
        assert LiteralHolds(a, lits[1]);
      } else {
        assert a[p] <= a[n];
        assert LiteralHolds(a, lits[0]);
      }
    }

    /** The explanation of max's lower bound raised to m is a valid clause as soon as some x
        has front-domain minimum m: in every solution within the root sets, either max is at
        least m or one of those x's is below m. */
    lemma ExplainIncreasedMax(m: int, roots: seq<set<int>>, front: seq<Dom>, a: seq<int>)
      requires |roots| == n + 1 && |front| == n && NonEmpty(front)
      requires exists i :: 0 <= i < n && Lb(front[i]) == m
      requires n > 0 && |a| == n + 1 && IsMax(a) && forall k :: 0 <= k <= n ==> a[k] in roots[k]
      ensures ClauseHolds(a, Explain(n, true, false, m, roots, front))
    {
      var lits := Explain(n, true, false, m, roots, front);
      if a[n] >= m {
        assert LiteralHolds(a, lits[0]);
      } else {
        var i :| 0 <= i < n && Lb(front[i]) == m;
        var l := Literal(i, AtMost(roots[i], m - 1), false);
        assert l in LowFrontLiterals(m, roots, front, n);
        assert a[i] <= a[n];
        assert l in lits && LiteralHolds(a, l);
      }
    }

  }
}
