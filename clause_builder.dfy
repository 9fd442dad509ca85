/** The signed-clause builder: it accumulates literals "variable in set" and turns them into
    a nogood over the model's root variables, rewriting literals on views onto their bases. */
module Clauses {
  import opened Domains

  /** Variables are known by their identifier, which the model hands out in creation order. */
  type VarId = nat

  /** What a variable is: a plain variable, a constant, or one of the three views. */
  datatype Kind =
    | Plain
    | Constant(value: int)
    | EqView(base: VarId, cste: int)     // 1 iff base == cste
    | LeqView(base: VarId, cste: int)    // 1 iff base <= cste
    | NotView(base: VarId)               // 1 - base, for a boolean base
  {
    predicate IsView() {
      EqView? || LeqView? || NotView?
    }
  }

  /** The value a view takes when its base takes x. */
  function ViewValue(k: Kind, x: int): int
    requires k.IsView()
  {
    if k.EqView? then (if x == k.cste then 1 else 0)
    else if k.LeqView? then (if x <= k.cste then 1 else 0)
    else 1 - x
  }

  /** The status bits of the nogood being built (the two low bits of a Java short). */
  const StatusFalse: bv2 := 0x0
  const Unknown: bv2 := 0x1
  const AlwaysTrue: bv2 := 0x2

  /** What building the nogood asks the model to post. */
  datatype Posted =
    | PostNothing                                          // the nogood is always true
    | PostFalse                                            // the false constraint
    | PostMember(v: VarId, s: set<int>)                    // member(v, s)
    | PostClause(vs: seq<VarId>, ranges: seq<set<int>>)    // an n-ary signed clause

  /** The outcome of buildNogood. Unsupported: the false constraint was posted and an
      UnsupportedOperationException thrown (no literal was put since the last build).
      MissingViewSet(v): the view v was popped from the worklist without a non-empty
      recorded set, where the source dereferences a null set or takes the minimum of an
      empty one. */
  datatype BuildResult = Built(posted: Posted) | Unsupported | MissingViewSet(v: VarId)

  /** A model whose views point to variables created before them, and whose variables all
      have an initial domain. */
  ghost predicate WellFormedModel(kinds: map<VarId, Kind>, initialDomains: map<VarId, set<int>>) {
    && (forall v :: v in kinds && kinds[v].IsView() ==> kinds[v].base in kinds && kinds[v].base < v)
    && (forall v :: v in kinds ==> v in initialDomains)
  }

  /** The builder's state: the recorded variables, their sets, and the status bits. */
  datatype BuilderState = BuilderState(vars: set<VarId>, sets: map<VarId, set<int>>, status: bv2)

  /** Every recorded variable has a set, and is a known variable that is not a constant. */
  ghost predicate Recorded(kinds: map<VarId, Kind>, b: BuilderState) {
    && b.vars == b.sets.Keys
    && b.vars <= kinds.Keys
    && (forall v :: v in b.vars ==> !kinds[v].Constant?)
  }

  /** Every entry of a worklist is a view of the model. */
  ghost predicate Views(kinds: map<VarId, Kind>, keys: seq<VarId>) {
    forall k :: k in keys ==> k in kinds && kinds[k].IsView()
  }

  /** No entry of s occurs twice. */
  ghost predicate Distinct(s: seq<VarId>) {
    forall i, j :: 0 <= i < j < |s| ==> s[i] != s[j]
  }

  /** The status after putting "v in s": UNKNOWN is set, and ALWAYSTRUE ends set exactly
      when it was, or v is a constant whose value is outside s, or v is a variable whose
      initial domain s meets and covers. */
  function PutStatus(kinds: map<VarId, Kind>, initialDomains: map<VarId, set<int>>, status: bv2,
                     v: VarId, s: set<int>): (r: bv2)
    requires WellFormedModel(kinds, initialDomains) && v in kinds
    ensures r & Unknown == Unknown
    ensures r & AlwaysTrue == AlwaysTrue <==>
      || status & AlwaysTrue == AlwaysTrue
      || (kinds[v].Constant? && kinds[v].value !in s)
      || (!kinds[v].Constant? && s * initialDomains[v] != {} && initialDomains[v] <= s)
  {
    var st := status | Unknown;
    if kinds[v].Constant? then
      (if kinds[v].value !in s then st | AlwaysTrue else st)
    else if s * initialDomains[v] != {} && initialDomains[v] <= s then st | AlwaysTrue
    else st
  }

  /** The state after putting the literal "v in s": a constant is never recorded; a variable
      is recorded with s exactly when s meets its initial domain. */
  function PutOn(kinds: map<VarId, Kind>, initialDomains: map<VarId, set<int>>, b: BuilderState,
                 v: VarId, s: set<int>): (r: BuilderState)
    requires WellFormedModel(kinds, initialDomains) && v in kinds
    ensures r.status == PutStatus(kinds, initialDomains, b.status, v, s)
    ensures kinds[v].Constant? || s * initialDomains[v] == {} ==> r.vars == b.vars && r.sets == b.sets
    ensures !kinds[v].Constant? && s * initialDomains[v] != {} ==>
      r.vars == b.vars + {v} && r.sets == b.sets[v := s]
    ensures Recorded(kinds, b) ==> Recorded(kinds, r)
  {
    var st := PutStatus(kinds, initialDomains, b.status, v, s);
    if !kinds[v].Constant? && s * initialDomains[v] != {} then
      BuilderState(b.vars + {v}, b.sets[v := s], st)
    else
      b.(status := st)
  }

  /** How the literal "view in {w, ...}" moves onto the view's base. Keep: the base is left
      alone. Move(merged, putSet): merged is the base's new set when the base is recorded
      with set cur, and putSet is the set put on the base when it is not. */
  datatype Rewrite = Keep | Move(merged: set<int>, putSet: set<int>)

  /** The rewrite of each view kind, with w the least value of the view's set and root the
      base's initial domain. The set put on the base holds exactly the base values at which
      the view takes w; for w = 1, and for a negation view, the recorded set gains those
      values, and for w = 0 it keeps only them. */
  function RewriteOf(k: Kind, w: int, cur: set<int>, root: set<int>): (r: Rewrite)
    requires k.IsView()
    ensures r.Keep? <==> !k.NotView? && w != 0 && w != 1
    ensures r.Move? ==> forall x :: x in root ==> (x in r.putSet <==> ViewValue(k, x) == w)
    ensures r.Move? && (k.NotView? || w == 1) ==>
      forall x :: x in root ==> (x in r.merged <==> x in cur || ViewValue(k, x) == w)
    ensures r.Move? && !k.NotView? && w == 0 ==>
      forall x :: x in r.merged <==> x in cur && ViewValue(k, x) == w
  {
    match k
    case EqView(_, c) =>
      if w == 1 then Move(cur + {c}, {c})
      else if w == 0 then Move(cur - {c}, root - {c})
      else Keep
    case LeqView(_, c) =>
      if w == 1 then Move(cur + AtMost(root, c), AtMost(root, c))
      else if w == 0 then Move(cur - AtMost(cur, c), root - AtMost(root, c))
      else Keep
    case NotView(_) => Move(cur + {1 - w}, {1 - w})
  }

  /** The recorded set of v, or the empty set when v is not recorded. */
  function SetOf(b: BuilderState, v: VarId): set<int> {
    if v in b.sets then b.sets[v] else {}
  }

  /** One elimination step: the new state, and the base pushed onto the worklist, if any. */
  datatype Step = Step(after: BuilderState, pushed: seq<VarId>)

  /** Eliminating the recorded view v: its literal is rewritten onto its base, which is put
      (and pushed when it is a view) if it was not recorded; the view's own set ends empty;
      no other literal changes. */
  function ViewStep(kinds: map<VarId, Kind>, initialDomains: map<VarId, set<int>>, b: BuilderState,
                    v: VarId): (r: Step)
    requires WellFormedModel(kinds, initialDomains) && Recorded(kinds, b)
    requires v in b.vars && kinds[v].IsView() && b.sets[v] != {}
    ensures Recorded(kinds, r.after)
    ensures
      var base := kinds[v].base;
      var rw := RewriteOf(kinds[v], Lb(b.sets[v]), SetOf(b, base), initialDomains[base]);
      var putting := rw.Move? && base !in b.vars;
      && v in r.after.sets && r.after.sets[v] == {}
      && r.after.vars == b.vars + (if putting && !kinds[base].Constant? && rw.putSet * initialDomains[base] != {}
                                   then {base} else {})
      && (rw.Move? && base in b.vars ==> r.after.sets[base] == rw.merged)
      && (putting && base in r.after.vars ==> r.after.sets[base] == rw.putSet)
      && r.after.status == (if putting then PutStatus(kinds, initialDomains, b.status, base, rw.putSet) else b.status)
      && r.pushed == (if putting && kinds[base].IsView() then [base] else [])
      && (forall k :: k != v && k != base ==>
            (k in r.after.sets <==> k in b.sets) && (k in b.sets ==> r.after.sets[k] == b.sets[k]))
  {
    var base := kinds[v].base;
    match RewriteOf(kinds[v], Lb(b.sets[v]), SetOf(b, base), initialDomains[base])
    case Keep => Step(b.(sets := b.sets[v := {}]), [])
    case Move(merged, putSet) =>
      if base in b.vars then
        Step(b.(sets := b.sets[base := merged][v := {}]), [])
      else
        var p := PutOn(kinds, initialDomains, b, base, putSet);
        Step(p.(sets := p.sets[v := {}]), if kinds[base].IsView() then [base] else [])
  }

  /** The weight of a worklist: every entry v counts v + 1, so that replacing a view by
      its (smaller) base makes the weight drop. */
  function Weight(keys: seq<VarId>): nat {
    if keys == [] then 0 else Weight(keys[..|keys| - 1]) + keys[|keys| - 1] + 1
  }

  /** Popping the last entry and pushing at most one smaller entry lowers the weight. */
  lemma WeightAfterPop(keys: seq<VarId>, pushed: seq<VarId>)
    requires keys != []
    requires pushed == [] || (|pushed| == 1 && pushed[0] < keys[|keys| - 1])
    ensures Weight(keys[..|keys| - 1] + pushed) < Weight(keys)
  {
    var rest := keys[..|keys| - 1];
    if pushed != [] {
      assert (rest + pushed)[..|rest + pushed| - 1] == rest;
    } else {
      assert rest + pushed == rest;
    }
  }

  /** The result of view elimination: the final state, the view found without a set (if
      any), and the views popped and rewritten, in order. */
  datatype Elimination = Elimination(after: BuilderState, missing: seq<VarId>, popped: seq<VarId>)

  /** The worklist loop of view elimination: keys is a stack whose last entry is popped
      first; a popped view without a non-empty set ends the loop. */
  function Elim(kinds: map<VarId, Kind>, initialDomains: map<VarId, set<int>>, b: BuilderState,
                keys: seq<VarId>): (r: Elimination)
    requires WellFormedModel(kinds, initialDomains) && Recorded(kinds, b) && Views(kinds, keys)
    ensures Recorded(kinds, r.after)
    ensures |r.missing| <= 1
    decreases Weight(keys)
  {
    if keys == [] then Elimination(b, [], [])
    else
      var v, rest := keys[|keys| - 1], keys[..|keys| - 1];
      if v !in b.sets || b.sets[v] == {} then Elimination(b, [v], [])
      else
        var s := ViewStep(kinds, initialDomains, b, v);
        WeightAfterPop(keys, s.pushed);
        var e := Elim(kinds, initialDomains, s.after, rest + s.pushed);
        Elimination(e.after, e.missing, [v] + e.popped)
  }

  /** Popping a recorded view with a non-empty set takes one ViewStep. */
  lemma ElimUnfold(kinds: map<VarId, Kind>, initialDomains: map<VarId, set<int>>, b: BuilderState,
                   keys: seq<VarId>)
    requires WellFormedModel(kinds, initialDomains) && Recorded(kinds, b) && Views(kinds, keys)
    requires keys != [] && keys[|keys| - 1] in b.sets && b.sets[keys[|keys| - 1]] != {}
    ensures
      var s := ViewStep(kinds, initialDomains, b, keys[|keys| - 1]);
      var next := keys[..|keys| - 1] + s.pushed;
      && Views(kinds, next)
      && Weight(next) < Weight(keys)
      && var e := Elim(kinds, initialDomains, s.after, next);
         Elim(kinds, initialDomains, b, keys) == Elimination(e.after, e.missing, [keys[|keys| - 1]] + e.popped)
  {
    var s := ViewStep(kinds, initialDomains, b, keys[|keys| - 1]);
    WeightAfterPop(keys, s.pushed);
  }

  /** An empty worklist leaves the state as it is. */
  lemma ElimNothing(kinds: map<VarId, Kind>, initialDomains: map<VarId, set<int>>, b: BuilderState)
    requires WellFormedModel(kinds, initialDomains) && Recorded(kinds, b)
    ensures Elim(kinds, initialDomains, b, []) == Elimination(b, [], [])
  {
  }

  /** Elimination only adds recorded variables and status bits. */
  lemma {:induction false} ElimGrows(kinds: map<VarId, Kind>, initialDomains: map<VarId, set<int>>,
                                     b: BuilderState, keys: seq<VarId>)
    requires WellFormedModel(kinds, initialDomains) && Recorded(kinds, b) && Views(kinds, keys)
    ensures var r := Elim(kinds, initialDomains, b, keys);
      && b.vars <= r.after.vars
      && (b.status & AlwaysTrue == AlwaysTrue ==> r.after.status & AlwaysTrue == AlwaysTrue)
      && (b.status & Unknown == Unknown ==> r.after.status & Unknown == Unknown)
    decreases Weight(keys)
  {
    if keys != [] {
      var v, rest := keys[|keys| - 1], keys[..|keys| - 1];
      if v in b.sets && b.sets[v] != {} {
        var s := ViewStep(kinds, initialDomains, b, v);
        WeightAfterPop(keys, s.pushed);
        ElimGrows(kinds, initialDomains, s.after, rest + s.pushed);
      }
    }
  }

  /** k is a popped view, or the base of one. */
  ghost predicate Touched(kinds: map<VarId, Kind>, popped: seq<VarId>, k: VarId) {
    k in popped || exists j :: j in popped && j in kinds && kinds[j].IsView() && kinds[j].base == k
  }

  /** Being touched by a subsequence of popped views means being touched by all of them. */
  lemma TouchedMono(kinds: map<VarId, Kind>, p: seq<VarId>, q: seq<VarId>, k: VarId)
    requires forall j :: j in p ==> j in q
    ensures Touched(kinds, p, k) ==> Touched(kinds, q, k)
  {
  }

  /** Elimination changes a literal only when it is a popped view or the base of one, and
      every popped entry is a view. */
  lemma {:induction false} ElimFrame(kinds: map<VarId, Kind>, initialDomains: map<VarId, set<int>>,
                                     b: BuilderState, keys: seq<VarId>)
    requires WellFormedModel(kinds, initialDomains) && Recorded(kinds, b) && Views(kinds, keys)
    ensures var r := Elim(kinds, initialDomains, b, keys);
      && Views(kinds, r.popped)
      && (forall k :: !Touched(kinds, r.popped, k) ==>
            (k in r.after.sets <==> k in b.sets) && (k in b.sets ==> r.after.sets[k] == b.sets[k]))
    decreases Weight(keys)
  {
    if keys != [] {
      var v, rest := keys[|keys| - 1], keys[..|keys| - 1];
      if v in b.sets && b.sets[v] != {} {
        var s := ViewStep(kinds, initialDomains, b, v);
        WeightAfterPop(keys, s.pushed);
        var e := Elim(kinds, initialDomains, s.after, rest + s.pushed);
        ElimFrame(kinds, initialDomains, s.after, rest + s.pushed);
        var popped := [v] + e.popped;
        assert Elim(kinds, initialDomains, b, keys).popped == popped;
        assert Touched(kinds, popped, kinds[v].base) by {
          assert v in popped;
        }
        forall k | !Touched(kinds, popped, k)
          ensures (k in e.after.sets <==> k in b.sets) && (k in b.sets ==> e.after.sets[k] == b.sets[k])
        {
          TouchedMono(kinds, e.popped, popped, k);
        }
      }
    }
  }

  /** When no view is missing its set, every entry of the worklist is popped. */
  lemma {:induction false} ElimPopsAll(kinds: map<VarId, Kind>, initialDomains: map<VarId, set<int>>,
                                       b: BuilderState, keys: seq<VarId>)
    requires WellFormedModel(kinds, initialDomains) && Recorded(kinds, b) && Views(kinds, keys)
    ensures var r := Elim(kinds, initialDomains, b, keys);
      r.missing == [] ==> forall k :: k in keys ==> k in r.popped
    decreases Weight(keys)
  {
    if keys != [] {
      var v, rest := keys[|keys| - 1], keys[..|keys| - 1];
      if v in b.sets && b.sets[v] != {} {
        var s := ViewStep(kinds, initialDomains, b, v);
        WeightAfterPop(keys, s.pushed);
        ElimPopsAll(kinds, initialDomains, s.after, rest + s.pushed);
        assert keys == rest + [v];
      }
    }
  }

  /** The worklist facts one elimination step keeps: a distinct worklist whose prefix is
      recorded stays so after popping its last entry and pushing a base that was not
      recorded. */
  lemma PopsOnceNext(keys: seq<VarId>, pushed: seq<VarId>, next: seq<VarId>, bvars: set<VarId>, avars: set<VarId>)
    requires keys != [] && Distinct(keys) && next == keys[..|keys| - 1] + pushed
    requires forall i :: 0 <= i < |keys| - 1 ==> keys[i] in bvars
    requires pushed == [] || (|pushed| == 1 && pushed[0] !in bvars)
    requires bvars <= avars
    ensures Distinct(next)
    ensures forall i :: 0 <= i < |next| - 1 ==> next[i] in avars
  {
    var rest := keys[..|keys| - 1];
    forall i, j | 0 <= i < j < |next| ensures next[i] != next[j] {
      if j < |rest| {
        assert next[i] == keys[i] && next[j] == keys[j];
      } else {
        assert next[i] == keys[i] && next[j] in pushed;
      }
    }
    forall i | 0 <= i < |next| - 1 ensures next[i] in avars {
      assert next[i] == keys[i];
    }
  }

  /** The popped-list facts one elimination step keeps: prepending the view just popped,
      which is recorded and not on the rest of the worklist, keeps the list distinct. */
  lemma PopsOnceBack(keys: seq<VarId>, pushed: seq<VarId>, ep: seq<VarId>,
                     bvars: set<VarId>, avars: set<VarId>)
    requires keys != [] && Distinct(keys) && keys[|keys| - 1] in bvars
    requires pushed == [] || (|pushed| == 1 && pushed[0] !in bvars)
    requires bvars <= avars
    requires Distinct(ep) && (forall k :: k in ep ==> k in keys[..|keys| - 1] + pushed || k !in avars)
    ensures Distinct([keys[|keys| - 1]] + ep)
    ensures forall k :: k in [keys[|keys| - 1]] + ep ==> k in keys || k !in bvars
  {
    var v, rest := keys[|keys| - 1], keys[..|keys| - 1];
    assert v !in rest by {
      forall i | 0 <= i < |rest| ensures rest[i] != v {
        assert rest[i] == keys[i];
      }
    }
    assert v !in rest + pushed && v in avars;
    assert v !in ep;
    var popped := [v] + ep;
    forall i, j | 0 <= i < j < |popped| ensures popped[i] != popped[j] {
      assert popped[j] == ep[j - 1];
      if i > 0 {
        assert popped[i] == ep[i - 1];
      }
    }
    forall k | k in popped ensures k in keys || k !in bvars {
      if k != v {
        assert k in ep;
        if k in rest {
          var i :| 0 <= i < |rest| && rest[i] == k;
          assert keys[i] == k;
        }
      }
    }
  }

  /** Seeded with distinct views of which all but the last are recorded (as the recorded
      views are), elimination pops every view at most once: a pushed base was not recorded,
      and a view stays recorded once popped. */
  lemma {:induction false} ElimPopsOnce(kinds: map<VarId, Kind>, initialDomains: map<VarId, set<int>>,
                                        b: BuilderState, keys: seq<VarId>)
    requires WellFormedModel(kinds, initialDomains) && Recorded(kinds, b) && Views(kinds, keys)
    requires Distinct(keys)
    requires forall i :: 0 <= i < |keys| - 1 ==> keys[i] in b.vars
    ensures var r := Elim(kinds, initialDomains, b, keys);
      && Distinct(r.popped)
      && (forall k :: k in r.popped ==> k in keys || k !in b.vars)
    decreases Weight(keys)
  {
    if keys != [] {
      var v := keys[|keys| - 1];
      if v in b.sets && b.sets[v] != {} {
        var s := ViewStep(kinds, initialDomains, b, v);
        ElimUnfold(kinds, initialDomains, b, keys);
        var next := keys[..|keys| - 1] + s.pushed;
        PopsOnceNext(keys, s.pushed, next, b.vars, s.after.vars);
        ElimPopsOnce(kinds, initialDomains, s.after, next);
        PopsOnceBack(keys, s.pushed, Elim(kinds, initialDomains, s.after, next).popped, b.vars, s.after.vars);
      }
    }
  }

  /** The recorded variables whose set is not empty. */
  function Survivors(vars: set<VarId>, sets: map<VarId, set<int>>): (r: set<VarId>)
    requires vars <= sets.Keys
    ensures forall v :: v in r <==> v in vars && sets[v] != {}
  {
    set v | v in vars && sets[v] != {}
  }

  /** The identifiers of s in increasing order (Arrays.sort on the variables). */
  method SortIds(s: set<VarId>) returns (r: seq<VarId>)
    ensures forall i, j :: 0 <= i < j < |r| ==> r[i] < r[j]
    ensures forall x :: x in s <==> x in r
    ensures |r| == |s|
  {
    r := [];
    var rest := s;
    while rest != {}
      invariant forall i, j :: 0 <= i < j < |r| ==> r[i] < r[j]
      invariant forall x :: x in s <==> x in r || x in rest
      invariant forall x, i :: x in rest && 0 <= i < |r| ==> r[i] < x
      invariant |r| + |rest| == |s|
      decreases |rest|
    {
      var m := Lb(rest);
      r := r + [m];
      rest := rest - {m};
    }
  }

  /** p is what to post for the recorded sets: the false constraint when no set survives,
      member(v, s) when exactly one does, otherwise a clause over the survivors sorted by
      identifier with their sets index-aligned. */
  ghost predicate Materializes(p: Posted, vars: set<VarId>, sets: map<VarId, set<int>>)
    requires vars <= sets.Keys
  {
    var live := Survivors(vars, sets);
    && (live == {} <==> p.PostFalse?)
    && (p.PostMember? <==> |live| == 1)
    && (p.PostMember? ==> live == {p.v} && p.s == sets[p.v])
    && (p.PostClause? ==> |live| >= 2)
    && (p.PostClause? ==>
          && |p.vs| == |p.ranges| == |live|
          && (forall i, j :: 0 <= i < j < |p.vs| ==> p.vs[i] < p.vs[j])
          && (forall v :: v in live <==> v in p.vs)
          && (forall i :: 0 <= i < |p.vs| ==> p.vs[i] in sets && p.ranges[i] == sets[p.vs[i]]))
    && !p.PostNothing?
  }

  /** Chooses what to post from the sets left after view elimination. */
  method Materialize(vars: set<VarId>, sets: map<VarId, set<int>>) returns (p: Posted)
    requires vars <= sets.Keys
    ensures Materializes(p, vars, sets)
  {
    var survivors := Survivors(vars, sets);
    var sorted := SortIds(survivors);
    if |sorted| == 0 {
      p := PostFalse;
    } else if |sorted| == 1 {
      assert survivors == {sorted[0]} by {
        forall v | v in survivors ensures v == sorted[0] { }
      }
      p := PostMember(sorted[0], sets[sorted[0]]);
    } else {
      var ranges := seq(|sorted|, i requires 0 <= i < |sorted| => sets[sorted[i]]);
      p := PostClause(sorted, ranges);
    }
  }

  class ClauseBuilder {
    /** The model's variables and the initial domains captured when the builder was created. */
    const kinds: map<VarId, Kind>
    const initialDomains: map<VarId, set<int>>
    /** The recorded variables and their sets of values. */
    var vars: set<VarId>
    var sets: map<VarId, set<int>>
    var status: bv2

    /** The builder's fields as a state value. */
    function State(): BuilderState
      reads this
    {
      BuilderState(vars, sets, status)
    }

    ghost predicate Valid()
      reads this
    {
      WellFormedModel(kinds, initialDomains) && Recorded(kinds, State())
    }

    constructor (kinds: map<VarId, Kind>, initialDomains: map<VarId, set<int>>)
      requires WellFormedModel(kinds, initialDomains)
      ensures Valid()
      ensures this.kinds == kinds && this.initialDomains == initialDomains
      ensures State() == BuilderState({}, map[], StatusFalse)
    {
      this.kinds := kinds;
      this.initialDomains := initialDomains;
      vars := {};
      sets := map[];
      status := StatusFalse;
    }

    /** The domain v had when the builder was created. */
    function GetInitialDomain(v: VarId): set<int>
      reads this
      requires Valid() && v in kinds
    {
      initialDomains[v]
    }

    /** Adds the literal "v in s", as PutOn says. */
    method Put(v: VarId, s: set<int>)
      requires Valid() && v in kinds
      modifies this
      ensures Valid()
      ensures State() == PutOn(kinds, initialDomains, old(State()), v, s)
    {
      status := status | Unknown;
      if kinds[v].Constant? {
        if kinds[v].value !in s {
          status := status | AlwaysTrue;
        }
        return;
      }
      if s * GetInitialDomain(v) != {} {
        if GetInitialDomain(v) <= s {
          status := status | AlwaysTrue;
        }
        vars := vars + {v};
        sets := sets[v := s];
      }
    }

    /** Rewrites the literal on the equality view ev = (base == cste) onto base. */
    method EliminateEqView(ev: VarId) returns (pushed: seq<VarId>)
      requires Valid() && ev in vars && kinds[ev].EqView? && sets[ev] != {}
      modifies this
      ensures Valid()
      ensures Step(State(), pushed) == ViewStep(kinds, initialDomains, old(State()), ev)
    {
      var viewSet := sets[ev];
      var vv := kinds[ev].base;
      var cste := kinds[ev].cste;
      var w := Lb(viewSet);
      pushed := [];
      if w == 1 {
        if vv in vars {
          sets := sets[vv := sets[vv] + {cste}];
        } else {
          Put(vv, {cste});
          if kinds[vv].IsView() {
            pushed := [vv];
          }
        }
      } else if w == 0 {
        if vv in vars {
          sets := sets[vv := sets[vv] - {cste}];
        } else {
          Put(vv, GetInitialDomain(vv) - {cste});
          if kinds[vv].IsView() {
            pushed := [vv];
          }
        }
      }
      sets := sets[ev := {}];
    }

    /** Rewrites the literal on the view lv = (base <= cste) onto base. */
    method EliminateLeqView(lv: VarId) returns (pushed: seq<VarId>)
      requires Valid() && lv in vars && kinds[lv].LeqView? && sets[lv] != {}
      modifies this
      ensures Valid()
      ensures Step(State(), pushed) == ViewStep(kinds, initialDomains, old(State()), lv)
    {
      var viewSet := sets[lv];
      var vv := kinds[lv].base;
      var cste := kinds[lv].cste;
      var w := Lb(viewSet);
      pushed := [];
      if w == 1 {
        var root := AtMost(GetInitialDomain(vv), cste);
        if vv in vars {
          sets := sets[vv := sets[vv] + root];
        } else {
          Put(vv, root);
          if kinds[vv].IsView() {
            pushed := [vv];
          }
        }
      } else if w == 0 {
        if vv in vars {
          sets := sets[vv := sets[vv] - AtMost(sets[vv], cste)];
        } else {
          var es := GetInitialDomain(vv);
          Put(vv, es - AtMost(es, cste));
          if kinds[vv].IsView() {
            pushed := [vv];
          }
        }
      }
      sets := sets[lv := {}];
    }

    /** Rewrites the literal on the negation view nv = 1 - base onto base. */
    method EliminateNotView(nv: VarId) returns (pushed: seq<VarId>)
      requires Valid() && nv in vars && kinds[nv].NotView? && sets[nv] != {}
      modifies this
      ensures Valid()
      ensures Step(State(), pushed) == ViewStep(kinds, initialDomains, old(State()), nv)
    {
      var viewSet := sets[nv];
      var vv := kinds[nv].base;
      var value := Lb(viewSet);
      pushed := [];
      if vv in vars {
        sets := sets[vv := sets[vv] + {1 - value}];
      } else {
        Put(vv, {1 - value});
        if kinds[vv].IsView() {
          pushed := [vv];
        }
      }
      sets := sets[nv := {}];
    }

    /** Dispatches on the kind of the recorded view v. */
    method EliminateView(v: VarId) returns (pushed: seq<VarId>)
      requires Valid() && v in vars && kinds[v].IsView() && sets[v] != {}
      modifies this
      ensures Valid()
      ensures Step(State(), pushed) == ViewStep(kinds, initialDomains, old(State()), v)
    {
      match kinds[v]
      case EqView(_, _) => pushed := EliminateEqView(v);
      case LeqView(_, _) => pushed := EliminateLeqView(v);
      case NotView(_) => pushed := EliminateNotView(v);
    }

    /** Eliminates the views with an explicit worklist seeded with `order` (the recorded
        views in the order of the HashSet being streamed); the result is that of Elim. */
    method EliminateViews(order: seq<VarId>) returns (missing: seq<VarId>)
      requires Valid() && Views(kinds, order)
      modifies this
      ensures Valid()
      ensures var e := Elim(kinds, initialDomains, old(State()), order);
        State() == e.after && missing == e.missing
    {
      var keys := order;
      missing := [];
      ghost var popped: seq<VarId> := [];
      while keys != []
        invariant Valid() && Views(kinds, keys)
        invariant var e := Elim(kinds, initialDomains, State(), keys);
          Elim(kinds, initialDomains, old(State()), order) == Elimination(e.after, e.missing, popped + e.popped)
        decreases Weight(keys)
      {
        ghost var before, beforeKeys := State(), keys;
        var v := keys[|keys| - 1];
        keys := keys[..|keys| - 1];
        if v !in sets || sets[v] == {} {
          missing := [v];
          return;
        }
        ElimUnfold(kinds, initialDomains, before, beforeKeys);
        var pushed := EliminateView(v);
        keys := keys + pushed;
        ghost var e := Elim(kinds, initialDomains, State(), keys);
        assert popped + ([v] + e.popped) == (popped + [v]) + e.popped;
        popped := popped + [v];
      }
    }

    /** Builds the nogood and says what to post. When the always-true bit is set nothing is
        posted; when no literal was put since the last build the false constraint is posted
        and the operation throws, leaving the builder as it was; otherwise views are
        eliminated, empty literals are dropped and the survivors decide the outcome. Every
        path that returns normally resets the builder. */
    method BuildNogood(order: seq<VarId>) returns (r: BuildResult)
      requires Valid()
      requires Distinct(order)
      requires forall v :: v in order <==> v in vars && kinds[v].IsView()
      modifies this
      ensures Valid()
      ensures old(status) & AlwaysTrue == AlwaysTrue ==> r == Built(PostNothing)
      ensures old(status) & AlwaysTrue == StatusFalse && old(status) & Unknown == StatusFalse ==>
        r == Unsupported && State() == old(State())
      ensures old(status) & AlwaysTrue == StatusFalse && old(status) & Unknown == Unknown ==>
        var e := Elim(kinds, initialDomains, old(State()), order);
        && (e.missing != [] ==> r == MissingViewSet(e.missing[0]) && State() == e.after)
        && (e.missing == [] ==> r.Built? && Materializes(r.posted, e.after.vars, e.after.sets))
      ensures r.Built? ==> State() == BuilderState({}, map[], StatusFalse)
    {
      if status & AlwaysTrue == StatusFalse {
        if status & Unknown != StatusFalse {
          var missing := EliminateViews(order);
          if missing != [] {
            return MissingViewSet(missing[0]);
          }
          var p := Materialize(vars, sets);
          r := Built(p);
        } else {
          return Unsupported;
        }
      } else {
        r := Built(PostNothing);
      }
      status := StatusFalse;
      vars := {};
      sets := map[];
    }
  }
}
