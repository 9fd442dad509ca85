# Signed clauses, count and max propagators of a constraint solver

This project models three sequential pieces of the Choco constraint solver, and proves properties of the models:

- **The signed-clause builder (`ClauseBuilder`).** It accumulates literals of the form "variable ∈ set" together with a two-bit status (FALSE, UNKNOWN, ALWAYSTRUE). On `buildNogood` it first rewrites every literal that sits on a view onto the view's base, using an explicit worklist. The views are equality, less-or-equal and boolean negation. It then drops empty literals, sorts the survivors by identifier and asks the model to post one of three things: the false constraint, a membership constraint, or an n-ary signed clause.
- **The fast count propagator (`PropFastCount`).** It enforces "exactly `card` of x[0..n-1] equal `value`". It keeps two index sets: `mandatories`, the x's instantiated to value, and `possibles`, the undecided x's that still contain value. It tightens `card` from the sizes of these sets. Once `card` is fixed, it either forces every possible to value or removes value from every possible.
- **The max propagator (`PropMax`).** It enforces "max = the largest of x[0..n-1]". Propagation is a repeated bounds pass:
  - every x is capped at max's upper bound;
  - max is bounded by the largest lower bound and the largest upper bound of the x's;
  - when a single x can still be the max, that x is back-propagated onto, and synchronised with max when its domain is enumerated.

  `PropMax` also has a three-valued entailment check and the `explain` routine. `explain` turns a bound event into the literals of a signed clause.

A domain is a non-empty finite set of integers (module `Domains`). Its lower bound is its least element and its upper bound its greatest. A variable is instantiated exactly when its domain is a singleton.

Domain updates return `Wipeout` where the solver throws a `ContradictionException`. The domains of a propagator's scope are passed in as a sequence and handed back in an `Outcome`: either `Contradiction` or `Propagated(doms)`. The propagators' own fields are fields of Dafny classes:
- `mandatories` and `possibles` in `PropFastCount`;
- `passive` in `PropMax`;
- `vars`, `sets` and `status` in `ClauseBuilder`.

"Losing no solution" (the predicates `KeepsSolutions` and `KeepsLinked`) means: every assignment within the input domains that satisfies the constraint is still an assignment of the output domains, so a contradiction is reported only when no solution exists. It is proved under these conditions:
- `PropMax`: for `Propagate`, `Pass`, `BoundPass` and `BoundCard`, with no condition. `Sync` and `BackPropagate` keep only the assignments where x[s] equals max (`KeepsLinked`). `SupportKeepsSolutions` turns this into every solution when x[s] is the only support.
- `PropFastCount.Filter`, and `Propagate` without the full bit: only when, before the call, `mandatories` and `possibles` classify the x's exactly (`Classified`).
- Full `Propagate`: always, since it rebuilds that classification first.
- `PropagateEvent`: when the classification held for the domains before the event, and the event only shrank x[i] and card (`EventOn`).

Both propagators are idempotent: a second full propagation on the result changes nothing.
- `PropFastCount`: `FullIdempotent` shows that the sets a full propagation leaves are exactly the classification of its result, and that filter run again from them changes neither the domains nor the sets.
- `PropMax`: `FixIsFixpoint` shows that on interval domains (`Intervals`) the propagation loop stops at a fixpoint of a pass, and `FixIdempotent` that a second run gives the same domains. `Propagate` ensures the fixpoint too. After back-propagation the source leaves the loop with `filter = false` (PM:72) without another pass. The result is a fixpoint only because line 73 gives a support with an interval domain exactly max's bounds. Without interval domains this fails, as `GapStopsShort` shows: take x0 = {2, 3, 6}, not enumerated, and max = [4, 7]. Then one run ends with x0 = {6} and max = {4, 5, 6}, and a second run fixes max to {6}.

Files:

- `domains.dfy` covers domains, bounds and the solver's domain updates.
- `clause_builder.dfy` covers `ClauseBuilder`.
- `fast_count.dfy` covers `PropFastCount`.
- `prop_max.dfy` covers `PropMax`.

Abridged paths in this file:
- CB is `src/main/java/org/chocosolver/solver/constraints/nary/clauses/ClauseBuilder.java`.
- FC is `solver/src/main/java/solver/constraints/propagators/nary/globalcardinality/PropFastCount.java`.
- PM is `src/main/java/org/chocosolver/solver/constraints/nary/min_max/PropMax.java`.

The table below uses the full paths.

## Model

| member | source | states |
|---|---|---|
| Domains.Lb | src/main/java/org/chocosolver/solver/constraints/nary/min_max/PropMax.java:56 | the lower bound of a non-empty domain is a value of it and no value lies below it |
| Domains.Ub | src/main/java/org/chocosolver/solver/constraints/nary/min_max/PropMax.java:52 | the upper bound of a non-empty domain is a value of it and no value lies above it |
| Domains.InstantiatedBounds | src/main/java/org/chocosolver/solver/constraints/nary/min_max/PropMax.java:74 | a domain is instantiated exactly when its bounds meet, and is then the singleton of its bound |
| Domains.UpdateLowerBound | solver/src/main/java/solver/constraints/propagators/nary/globalcardinality/PropFastCount.java:143 | raising the lower bound to l fails exactly when every value is below l; otherwise the values of at least l remain, and a change is reported exactly when a value was removed |
| Domains.UpdateUpperBound | solver/src/main/java/solver/constraints/propagators/nary/globalcardinality/PropFastCount.java:144 | lowering the upper bound to u fails exactly when every value is above u; otherwise the values of at most u remain, and a change is reported exactly when a value was removed |
| Domains.UpdateBounds | src/main/java/org/chocosolver/solver/constraints/nary/min_max/PropMax.java:73 | restricting to [l, u] fails exactly when no value lies in it, that is when the restricted set is empty; otherwise the values in [l, u] remain, and a change is reported exactly when a bound moved |
| Domains.IntervalAtMost | src/main/java/org/chocosolver/solver/constraints/nary/min_max/PropMax.java:55 | lowering the upper bound of an interval domain leaves an interval |
| Domains.IntervalAtLeast | src/main/java/org/chocosolver/solver/constraints/nary/min_max/PropMax.java:59 | raising the lower bound of an interval domain leaves an interval |
| Domains.IntervalClamp | src/main/java/org/chocosolver/solver/constraints/nary/min_max/PropMax.java:73 | restricting an interval domain to a range leaves an interval |
| Domains.IntervalClampBounds | src/main/java/org/chocosolver/solver/constraints/nary/min_max/PropMax.java:73 | restricting an interval domain to a range [l, u] inside its bounds leaves a non-empty domain whose bounds are exactly l and u |
| Domains.ShrinksTrans | src/main/java/org/chocosolver/solver/constraints/nary/min_max/PropMax.java:47-85 | shrinking domains composes across steps |
| Domains.ClampWithinBounds | src/main/java/org/chocosolver/solver/constraints/nary/min_max/PropMax.java:73 | restricting a domain to a range that holds both its bounds leaves it as it is |
| Domains.InstantiateTo | solver/src/main/java/solver/constraints/propagators/nary/globalcardinality/PropFastCount.java:150 | instantiating to v fails exactly when v is not in the domain; otherwise the domain becomes {v}, a change exactly when it was not {v} already |
| Domains.AtMost | src/main/java/org/chocosolver/solver/constraints/nary/clauses/ClauseBuilder.java:208-209 | a root set narrowed to (-inf, c] keeps exactly its values of at most c |
| Domains.AtLeast | src/main/java/org/chocosolver/solver/constraints/nary/min_max/PropMax.java:124-125 | a root set narrowed to [m, inf) keeps exactly its values of at least m |
| Domains.RemoveValue | solver/src/main/java/solver/constraints/propagators/nary/globalcardinality/PropFastCount.java:155 | removing v fails exactly when the domain is {v}; otherwise v is gone, a change exactly when v was there |
| Clauses.Survivors | src/main/java/org/chocosolver/solver/constraints/nary/clauses/ClauseBuilder.java:124 | the variables kept after dropping empty literals are exactly the recorded ones with a non-empty set |
| Clauses.SortIds | src/main/java/org/chocosolver/solver/constraints/nary/clauses/ClauseBuilder.java:125-126 | the variables as an array sorted by identifier: strictly increasing, with exactly the elements of the set |
| Clauses.Materialize | src/main/java/org/chocosolver/solver/constraints/nary/clauses/ClauseBuilder.java:124-141 | no surviving literal posts the false constraint; exactly one posts member(v, set of v); two or more post a clause whose variables are the survivors in increasing identifier order, with ranges index-aligned to them; something is always posted |
| Clauses.ClauseBuilder.constructor | src/main/java/org/chocosolver/solver/constraints/nary/clauses/ClauseBuilder.java:76-82 | a new builder holds no literal, has status FALSE and captures the model's initial domains |
| Clauses.PutStatus | src/main/java/org/chocosolver/solver/constraints/nary/clauses/ClauseBuilder.java:94-103 | the UNKNOWN bit ends set; ALWAYSTRUE ends set exactly when it was already, or the variable is a constant whose value is outside the set, or a variable whose initial domain the set meets and covers |
| Clauses.PutOn | src/main/java/org/chocosolver/solver/constraints/nary/clauses/ClauseBuilder.java:93-109 | the status is as PutStatus states; a constant, or a set missing the initial domain, leaves the recorded variables and sets as they were; otherwise the variable is recorded with exactly that set; the recorded-state invariant is kept |
| Clauses.RewriteOf | src/main/java/org/chocosolver/solver/constraints/nary/clauses/ClauseBuilder.java:175-247 | with w the least value of a view's set: an equality or order view with w neither 0 nor 1 leaves its base alone; otherwise the set put on an unrecorded base holds exactly the root values at which the view takes w; for w = 1 and for a negation view a recorded base's set gains exactly those values, and for w = 0 (equality and order views) it keeps only its values at which the view takes 0 |
| Clauses.ViewStep | src/main/java/org/chocosolver/solver/constraints/nary/clauses/ClauseBuilder.java:175-247 | one elimination step on a recorded view: the view's set ends empty; an unrecorded base is put as PutOn states, is recorded exactly when its set meets its initial domain, and sets the status as PutStatus states; a recorded base's set becomes the merged set of RewriteOf; the base is pushed exactly when it was put and is a view; no other variable's literal changes |
| Clauses.Elim | src/main/java/org/chocosolver/solver/constraints/nary/clauses/ClauseBuilder.java:154-173 | defined as the worklist loop: the last entry is popped first, a popped view without a non-empty set ends elimination and is reported, any other is rewritten by `ViewStep` and its base pushed; its contract ensures that the recorded-state invariant holds of the final state and that at most one view is reported (its other properties are the `Elim*` lemmas) |
| Clauses.ElimNothing | src/main/java/org/chocosolver/solver/constraints/nary/clauses/ClauseBuilder.java:163 | an empty worklist leaves the builder unchanged |
| Clauses.ElimGrows | src/main/java/org/chocosolver/solver/constraints/nary/clauses/ClauseBuilder.java:154-173 | elimination only adds recorded variables, and never clears the UNKNOWN or ALWAYSTRUE bit |
| Clauses.ElimFrame | src/main/java/org/chocosolver/solver/constraints/nary/clauses/ClauseBuilder.java:154-247 | every popped entry is a view, and a variable's literal changes only if it is a popped view or the base of one |
| Clauses.ElimPopsAll | src/main/java/org/chocosolver/solver/constraints/nary/clauses/ClauseBuilder.java:163-172 | when no view is reported missing, every seeded view has been popped |
| Clauses.ElimPopsOnce | src/main/java/org/chocosolver/solver/constraints/nary/clauses/ClauseBuilder.java:155-172 | seeded with distinct recorded views, no view is popped twice, and every popped view was seeded or was not recorded before elimination |
| Clauses.ClauseBuilder.Put | src/main/java/org/chocosolver/solver/constraints/nary/clauses/ClauseBuilder.java:93-109 | the builder's new state is PutOn of its old state |
| Clauses.ClauseBuilder.EliminateEqView | src/main/java/org/chocosolver/solver/constraints/nary/clauses/ClauseBuilder.java:175-201 | the builder's new state and the pushed base are ViewStep of the old state on the equality view |
| Clauses.ClauseBuilder.EliminateLeqView | src/main/java/org/chocosolver/solver/constraints/nary/clauses/ClauseBuilder.java:203-231 | the builder's new state and the pushed base are ViewStep of the old state on the order view |
| Clauses.ClauseBuilder.EliminateNotView | src/main/java/org/chocosolver/solver/constraints/nary/clauses/ClauseBuilder.java:233-247 | the builder's new state and the pushed base are ViewStep of the old state on the negation view |
| Clauses.ClauseBuilder.EliminateView | src/main/java/org/chocosolver/solver/constraints/nary/clauses/ClauseBuilder.java:165-171 | dispatching on the view's kind takes the ViewStep of that view |
| Clauses.ClauseBuilder.EliminateViews | src/main/java/org/chocosolver/solver/constraints/nary/clauses/ClauseBuilder.java:154-173 | the loop ends, because each view pushes only smaller bases; the final state and the reported missing view are those of Elim on the old state |
| Clauses.ClauseBuilder.BuildNogood | src/main/java/org/chocosolver/solver/constraints/nary/clauses/ClauseBuilder.java:120-152 | with ALWAYSTRUE set nothing is posted; with status exactly FALSE the false constraint is posted, the operation fails and the builder is left as it was; otherwise, with e the Elim of the old state, a missing view is reported as it is, and else the result is what Materializes states for e's recorded sets; every normal return resets the status and empties the builder |
| FastCount.MinCount | solver/src/main/java/solver/constraints/propagators/nary/globalcardinality/PropFastCount.java:181-186 | the number of x's instantiated to value is at most the number of x's scanned |
| FastCount.MaxCount | solver/src/main/java/solver/constraints/propagators/nary/globalcardinality/PropFastCount.java:181-191 | the number of x's containing value is at most the number of x's scanned |
| FastCount.OccurrencesBetween | solver/src/main/java/solver/constraints/propagators/nary/globalcardinality/PropFastCount.java:193-195 | in every assignment of the domains, the number of x's equal to value lies between the two counts |
| FastCount.OccurrencesDecided | solver/src/main/java/solver/constraints/propagators/nary/globalcardinality/PropFastCount.java:196-199 | when the two counts agree, every assignment has exactly that many x's equal to value |
| FastCount.MinCountIsSize | solver/src/main/java/solver/constraints/propagators/nary/globalcardinality/PropFastCount.java:184-186 | the lower count is the size of the set of x's instantiated to value |
| FastCount.MaxCountIsSize | solver/src/main/java/solver/constraints/propagators/nary/globalcardinality/PropFastCount.java:184-190 | the upper count is the size of the set of x's containing value |
| FastCount.OccurrencesAtMax | solver/src/main/java/solver/constraints/propagators/nary/globalcardinality/PropFastCount.java:147-151 | an assignment reaching the upper count sets to value every x whose domain contains it, which is why forcing loses no solution |
| FastCount.OccurrencesAtMin | solver/src/main/java/solver/constraints/propagators/nary/globalcardinality/PropFastCount.java:153-157 | an assignment reaching only the lower count keeps value off every x not instantiated to it, which is why removing loses no solution |
| FastCount.ClassifiedCounts | solver/src/main/java/solver/constraints/propagators/nary/globalcardinality/PropFastCount.java:143-144 | when the two index sets classify the x's exactly, they are disjoint and their sizes are the two counts |
| FastCount.EventKeepsClassified | solver/src/main/java/solver/constraints/propagators/nary/globalcardinality/PropFastCount.java:125-135 | after an event on one x, dropping a possible that lost value, or moving one that became instantiated, keeps the classification exact; any other x keeps its class |
| FastCount.FilterKeepsClassified | solver/src/main/java/solver/constraints/propagators/nary/globalcardinality/PropFastCount.java:145-158 | forcing the possibles to value makes mandatories ∪ possibles the new mandatories; removing value from them leaves mandatories unchanged; in both cases the classification stays exact with no possible left |
| FastCount.CardKeepsClassified | solver/src/main/java/solver/constraints/propagators/nary/globalcardinality/PropFastCount.java:143-144 | tightening card alone keeps the classification of the x's |
| FastCount.PropFastCount.constructor | solver/src/main/java/solver/constraints/propagators/nary/globalcardinality/PropFastCount.java:72-79 | both index sets start empty |
| FastCount.PropFastCount.EntailmentFalseSound | solver/src/main/java/solver/constraints/propagators/nary/globalcardinality/PropFastCount.java:193-195 | when the check answers FALSE, no assignment of the domains satisfies the count |
| FastCount.PropFastCount.EntailmentTrueSound | solver/src/main/java/solver/constraints/propagators/nary/globalcardinality/PropFastCount.java:196-199 | when the check answers TRUE, every assignment of the domains satisfies the count |
| FastCount.PropFastCount.IsEntailed | solver/src/main/java/solver/constraints/propagators/nary/globalcardinality/PropFastCount.java:176-200 | the one-pass counting loop returns FALSE when card's bounds miss [min, max], else UNDEFINED unless card is fixed and min = max, else TRUE, where min and max are the two counts (whose soundness the two lemmas above state) |
| FastCount.PropFastCount.ForcePossibles | solver/src/main/java/solver/constraints/propagators/nary/globalcardinality/PropFastCount.java:147-152 | fails exactly when some possible no longer holds value; otherwise every possible becomes {value} and mandatory, nothing else changes, and possibles ends empty |
| FastCount.PropFastCount.RemoveFromPossibles | solver/src/main/java/solver/constraints/propagators/nary/globalcardinality/PropFastCount.java:153-158 | fails exactly when some possible has shrunk to {value}; otherwise value leaves every possible, nothing else changes, possibles ends empty and mandatories is unchanged |
| FastCount.PropFastCount.FilterFixedCard | solver/src/main/java/solver/constraints/propagators/nary/globalcardinality/PropFastCount.java:145-159 | with card fixed to the total of both sets every possible is forced; with card fixed to the number of mandatories value is removed from every possible; otherwise nothing changes; failure exactly as in the two branches; card unchanged; an exact classification stays exact |
| FastCount.PropFastCount.SolutionInCard | solver/src/main/java/solver/constraints/propagators/nary/globalcardinality/PropFastCount.java:143-144 | every solution's card lies in [mandatories, mandatories + possibles] |
| FastCount.PropFastCount.ForcedKeepsSolution | solver/src/main/java/solver/constraints/propagators/nary/globalcardinality/PropFastCount.java:147-151 | an assignment taking value at every possible survives forcing the possibles |
| FastCount.PropFastCount.RemovedKeepsSolution | solver/src/main/java/solver/constraints/propagators/nary/globalcardinality/PropFastCount.java:153-157 | an assignment avoiding value at every possible survives removing value from the possibles |
| FastCount.PropFastCount.FixedCardKeepsSolution | solver/src/main/java/solver/constraints/propagators/nary/globalcardinality/PropFastCount.java:145-158 | a solution survives the forcing or removing branch |
| FastCount.PropFastCount.FilterKeepsSolutions | solver/src/main/java/solver/constraints/propagators/nary/globalcardinality/PropFastCount.java:142-160 | filter, run on an exact classification, loses no solution |
| FastCount.PropFastCount.Filter | solver/src/main/java/solver/constraints/propagators/nary/globalcardinality/PropFastCount.java:142-160 | FilterSpec from the old sets to the new ones: card is bounded to [mandatories, mandatories + possibles], failing when that leaves it empty, and then finishes as FilterFixedCard states; domains only shrink; an exact classification stays exact and then no solution is lost |
| FastCount.PropFastCount.Propagate | solver/src/main/java/solver/constraints/propagators/nary/globalcardinality/PropFastCount.java:101-120 | with the full bit, filter runs (FilterSpec) from the rebuilt sets MandOf and PossOf, the x's instantiated to value and the undecided x's containing it, and the result is classified exactly and loses no solution; without it, filter runs from the old sets, and loses no solution when they classified the domains |
| FastCount.PropFastCount.Classify | solver/src/main/java/solver/constraints/propagators/nary/globalcardinality/PropFastCount.java:103-117 | the rebuilding loop yields exactly the x's instantiated to value and the undecided x's containing it, two disjoint sets that classify the x's exactly |
| FastCount.PropFastCount.ClassifiedIsMandPoss | solver/src/main/java/solver/constraints/propagators/nary/globalcardinality/PropFastCount.java:103-117 | an exact classification of the x's is unique: it is the rebuilt pair MandOf, PossOf |
| FastCount.PropFastCount.FixedCardSets | solver/src/main/java/solver/constraints/propagators/nary/globalcardinality/PropFastCount.java:145-158 | when the end of filter does not fail it leaves card as it is and the sets in one of three ways: every possible forced, every possible stripped of value, or nothing done |
| FastCount.PropFastCount.FixedCardSettled | solver/src/main/java/solver/constraints/propagators/nary/globalcardinality/PropFastCount.java:145-158 | with no possible left, or card fixed to neither count, the end of filter changes neither the domains nor the sets |
| FastCount.PropFastCount.FilterLeaves | solver/src/main/java/solver/constraints/propagators/nary/globalcardinality/PropFastCount.java:142-159 | filter from an exact classification that does not fail leaves sets that classify its result exactly, with card the tightened card |
| FastCount.PropFastCount.CardSettled | solver/src/main/java/solver/constraints/propagators/nary/globalcardinality/PropFastCount.java:143-144 | a card tightened once and left by filter already lies within the bounds the new sets give, so tightening it again changes nothing |
| FastCount.PropFastCount.FullSettles | solver/src/main/java/solver/constraints/propagators/nary/globalcardinality/PropFastCount.java:101-120 | after a full propagation the sets are MandOf and PossOf of the result, card lies within their bounds, and card is fixed to neither count unless no possible is left |
| FastCount.PropFastCount.FullIdempotent | solver/src/main/java/solver/constraints/propagators/nary/globalcardinality/PropFastCount.java:101-120 | after a full propagation, the sets left are MandOf and PossOf of the result, and filter run again from them (a second full propagation, or an incremental one with no change in between) leaves the domains and both sets unchanged |
| FastCount.PropFastCount.PropagateEvent | solver/src/main/java/solver/constraints/propagators/nary/globalcardinality/PropFastCount.java:123-140 | an event on an x that is not a possible, or is a possible still undecided and holding value, changes nothing; for a possible that lost value, filter runs (FilterSpec) with it dropped; for one that became instantiated, with it moved to mandatories; an event on card runs filter from the old sets; under EventOn and an exact classification before the event, the classification and every solution are kept |
| MinMax.MaxOf | src/main/java/org/chocosolver/solver/constraints/nary/min_max/PropMax.java:34-38 | the largest of x[0..n-1] (n > 0) is at least each of them and equal to one |
| MinMax.MaxOfAttained | src/main/java/org/chocosolver/solver/constraints/nary/min_max/PropMax.java:53-57 | a value of the x's that no other x exceeds is their largest |
| MinMax.ShrinksSize | src/main/java/org/chocosolver/solver/constraints/nary/min_max/PropMax.java:47-85 | shrinking domains never grows their total size, and a pass that changes them lowers it, so the do-while ends |
| MinMax.Unsupported | src/main/java/org/chocosolver/solver/constraints/nary/min_max/PropMax.java:63-70 | the count of x's whose upper bound is under lb is at most n, and is n exactly when every x is |
| MinMax.LastSupport | src/main/java/org/chocosolver/solver/constraints/nary/min_max/PropMax.java:63-70 | the last x below k whose upper bound reaches lb, with every later x under lb; -1 exactly when every x below k is under lb |
| MinMax.OnlySupport | src/main/java/org/chocosolver/solver/constraints/nary/min_max/PropMax.java:71 | the count is n - 1 exactly when the supporting x is the only x with upper bound at least lb |
| MinMax.LowFrontLiterals | src/main/java/org/chocosolver/solver/constraints/nary/min_max/PropMax.java:127-133 | the literal "x[i] in root below m" appears exactly for the x's whose front-domain minimum is m, none a pivot |
| MinMax.HighFrontLiterals | src/main/java/org/chocosolver/solver/constraints/nary/min_max/PropMax.java:138-144 | the literal "x[i] in root above m" appears exactly for the x's whose front-domain maximum is m, none a pivot |
| MinMax.PropMax.constructor | src/main/java/org/chocosolver/solver/constraints/nary/min_max/PropMax.java:34-38 | a propagator over n > 0 variables and max starts active |
| MinMax.PropMax.CapAll | src/main/java/org/chocosolver/solver/constraints/nary/min_max/PropMax.java:52-58 | each x is capped at max's upper bound, which is read once; the pass fails exactly when some x lies wholly above it; a change is reported exactly when some x reached above it; lb and ub are the largest lower and upper bounds of the capped x's; the result is `Capped` of the input and lb, ub are the `MaxOf` of its lower and upper bounds |
| MinMax.PropMax.Capped | src/main/java/org/chocosolver/solver/constraints/nary/min_max/PropMax.java:54-55 | the x's capped at max's upper bound, max unchanged |
| MinMax.PropMax.CappedNonEmpty | src/main/java/org/chocosolver/solver/constraints/nary/min_max/PropMax.java:55 | when no x lies wholly above max, capping empties no domain |
| MinMax.PropMax.CappedMax | src/main/java/org/chocosolver/solver/constraints/nary/min_max/PropMax.java:54-57 | domains capped one by one are `Capped`, and bounds at least every capped x's and attained by one are the `MaxOf` of the lower and upper bounds; no x then lies wholly above max |
| MinMax.PropMax.Bounded | src/main/java/org/chocosolver/solver/constraints/nary/min_max/PropMax.java:52-60 | the first half of a pass as a function of the input: every x capped at max's upper bound, then max restricted to the largest lower and upper bounds of the capped x's, failing when an x lies wholly above max or max runs empty; the result only shrinks the input |
| MinMax.PropMax.BoundedBounds | src/main/java/org/chocosolver/solver/constraints/nary/min_max/PropMax.java:52-61 | after bounding no x exceeds max's old upper bound, the largest lower bound lies between every x's lower bound and max's new lower bound, and some x reaches max's new upper bound |
| MinMax.PropMax.BoundedKeepsIntervals | src/main/java/org/chocosolver/solver/constraints/nary/min_max/PropMax.java:52-60 | bounding keeps every non-enumerated domain an interval |
| MinMax.PropMax.CountSupports | src/main/java/org/chocosolver/solver/constraints/nary/min_max/PropMax.java:63-70 | c counts the x's under lb; idx is -1 exactly when c = n, otherwise the last x whose upper bound reaches lb, which is `LastSupport` |
| MinMax.PropMax.LinkedWithinBounds | src/main/java/org/chocosolver/solver/constraints/nary/min_max/PropMax.java:78-82 | when x[s] and max agree, each lies within the other's bounds |
| MinMax.PropMax.Sync | src/main/java/org/chocosolver/solver/constraints/nary/min_max/PropMax.java:78-82 | the inner loop ends with max and x[s] having equal lower and equal upper bounds; it touches no other x and loses no assignment where x[s] equals max; its outcome is `SyncOf` of the input |
| MinMax.PropMax.SyncRound | src/main/java/org/chocosolver/solver/constraints/nary/min_max/PropMax.java:80-81 | one round restricts max to x[s]'s bounds and then x[s] to max's new bounds, fails exactly when either runs empty, and loses no assignment where x[s] equals max |
| MinMax.PropMax.SyncStepShrinks | src/main/java/org/chocosolver/solver/constraints/nary/min_max/PropMax.java:78-82 | a round that starts with a bound of max and of x[s] different and leaves both domains non-empty removes a value from one of them, so the loop ends |
| MinMax.PropMax.SyncOf | src/main/java/org/chocosolver/solver/constraints/nary/min_max/PropMax.java:78-82 | the inner loop as a function: its result only shrinks the input, touches no x but x[s], and leaves max and x[s] with equal lower and equal upper bounds |
| MinMax.PropMax.SyncOfKeepsIntervals | src/main/java/org/chocosolver/solver/constraints/nary/min_max/PropMax.java:78-82 | the inner loop keeps every non-enumerated domain an interval |
| MinMax.PropMax.BackPropagate | src/main/java/org/chocosolver/solver/constraints/nary/min_max/PropMax.java:73-83 | x[s] is bounded by max's bounds; the propagator turns passive exactly when max is instantiated (x[s] is then max's singleton); otherwise an enumerated x[s] is synchronised with max and an interval one only bounded; the outcome and the passive flag are those of `BackPropagateOf` |
| MinMax.PropMax.BackPropagateOf | src/main/java/org/chocosolver/solver/constraints/nary/min_max/PropMax.java:73-83 | the single-support step as a function: it only shrinks the input, and turns the propagator passive exactly when it does not fail and max is instantiated |
| MinMax.PropMax.BackPropagateOfKeepsIntervals | src/main/java/org/chocosolver/solver/constraints/nary/min_max/PropMax.java:73-83 | the single-support step keeps every non-enumerated domain an interval |
| MinMax.PropMax.BackPropagateOfSupport | src/main/java/org/chocosolver/solver/constraints/nary/min_max/PropMax.java:71-83 | when x[s] is the only x reaching max's lower bound and max is bounded by the x's, the step leaves x[s] the only support within max's bounds; passive only when the constraint is entailed; with interval domains, or when passive, or for an enumerated x[s], x[s] and max end with equal bounds and max's bounds agree with the x's |
| MinMax.PropMax.SupportCardConsistent | src/main/java/org/chocosolver/solver/constraints/nary/min_max/PropMax.java:73 | a single support sharing max's bounds makes max's bounds agree with the x's |
| MinMax.PropMax.OnlySupportTakesMax | src/main/java/org/chocosolver/solver/constraints/nary/min_max/PropMax.java:71-73 | when every other x lies under max's lower bound, every solution has x[s] equal to max |
| MinMax.PropMax.SupportKeepsSolutions | src/main/java/org/chocosolver/solver/constraints/nary/min_max/PropMax.java:71-84 | back-propagation onto the only support loses no solution |
| MinMax.PropMax.FixedSupportEntailed | src/main/java/org/chocosolver/solver/constraints/nary/min_max/PropMax.java:74-75 | with max fixed, its only support equal to it and every other x under it, every assignment is a solution, which justifies turning passive |
| MinMax.PropMax.CapKeepsSolutions | src/main/java/org/chocosolver/solver/constraints/nary/min_max/PropMax.java:54-55 | capping the x's at max's upper bound loses no solution, and its failure means there is none |
| MinMax.PropMax.SolutionUnderCap | src/main/java/org/chocosolver/solver/constraints/nary/min_max/PropMax.java:54-55 | in every solution no x is above max's upper bound |
| MinMax.PropMax.CardBoundKeepsSolutions | src/main/java/org/chocosolver/solver/constraints/nary/min_max/PropMax.java:59-60 | in every solution max is at least the largest lower bound and at most the largest upper bound of the x's |
| MinMax.PropMax.KeepsSolutionsTrans | src/main/java/org/chocosolver/solver/constraints/nary/min_max/PropMax.java:47-85 | losing no solution composes across the steps and passes of propagation |
| MinMax.PropMax.CapChanged | src/main/java/org/chocosolver/solver/constraints/nary/min_max/PropMax.java:55 | the capped domains differ from the input exactly when some x reached above max |
| MinMax.PropMax.BoundCard | src/main/java/org/chocosolver/solver/constraints/nary/min_max/PropMax.java:59-60 | max is restricted to [lb, ub] and nothing else changes; failure exactly when that leaves it empty; a change is reported exactly when a value was removed; no solution is lost |
| MinMax.PropMax.BoundPass | src/main/java/org/chocosolver/solver/constraints/nary/min_max/PropMax.java:50-61 | after the first three steps of a pass no x exceeds max's old upper bound, max's lower bound is at least every x's lower bound, some x reaches max's upper bound, the change flag is exact and no solution is lost; the outcome is `Bounded` of the input, and interval domains stay intervals |
| MinMax.PropMax.Pass | src/main/java/org/chocosolver/solver/constraints/nary/min_max/PropMax.java:49-84 | one pass loses no solution and only shrinks domains; another pass is asked for only after a change and never after back-propagation; without a single support max's bounds agree with the x's; with one, that x is the only support within max's bounds; passive only when entailed; the outcome, support and passive flag are those of `PassOf`, and passive exactly when there is a single support, the pass does not fail and max was instantiated after bounding; with interval domains the support and max end with equal bounds, and max's bounds agree with the x's whenever no further pass is asked for |
| MinMax.PropMax.SupportStep | src/main/java/org/chocosolver/solver/constraints/nary/min_max/PropMax.java:61-83 | on bounded domains the support is `LastSupport` when all x's but one are under max's lower bound and -1 otherwise; with a support the outcome and passive flag are `BackPropagateOf`'s, without one the domains are unchanged and the propagator stays active; no solution is lost; the support is the only one within max's bounds, with equal bounds on interval domains |
| MinMax.PropMax.PassOf | src/main/java/org/chocosolver/solver/constraints/nary/min_max/PropMax.java:49-84 | one pass as a function: `Bounded`, then `BackPropagateOf` on `LastSupport` when all x's but one are under max's lower bound; it only shrinks the input, and asks for another pass only after a change |
| MinMax.PropMax.Propagate | src/main/java/org/chocosolver/solver/constraints/nary/min_max/PropMax.java:46-86 | propagation terminates, loses no solution and only shrinks domains; afterwards no x exceeds max, and either max's bounds agree with the x's or a single x can still be the max, and with interval domains max's bounds agree with the x's and the result is a fixpoint of a pass; the outcome is `Fix`'s and the propagator is passive exactly when it was already or the last pass turned it passive, which happens only when the constraint is entailed |
| MinMax.PropMax.Fix | src/main/java/org/chocosolver/solver/constraints/nary/min_max/PropMax.java:46-86 | the do-while loop as a function, ending when a pass fails or asks for no further pass; its result only shrinks the input, and passive only with a result |
| MinMax.PropMax.PassOfKeepsIntervals | src/main/java/org/chocosolver/solver/constraints/nary/min_max/PropMax.java:52-83 | a pass keeps interval domains intervals |
| MinMax.PropMax.PassOfSupport | src/main/java/org/chocosolver/solver/constraints/nary/min_max/PropMax.java:61-83 | on interval domains, a pass that back-propagates leaves its support the only x that can be the max, with max's bounds exactly |
| MinMax.PropMax.SupportBoundedFixed | src/main/java/org/chocosolver/solver/constraints/nary/min_max/PropMax.java:52-60 | with a sole support sharing max's bounds, bounding changes no domain |
| MinMax.PropMax.SupportBackFixed | src/main/java/org/chocosolver/solver/constraints/nary/min_max/PropMax.java:73-83 | when the support already has max's bounds, back-propagation changes no domain |
| MinMax.PropMax.SupportFixpoint | src/main/java/org/chocosolver/solver/constraints/nary/min_max/PropMax.java:52-83 | with a sole support sharing max's bounds, a pass changes no domain, finds the same support and asks for no further pass |
| MinMax.PropMax.FixIsFixpoint | src/main/java/org/chocosolver/solver/constraints/nary/min_max/PropMax.java:46-86 | on interval domains the do-while loop ends at a fixpoint: one more pass on its result changes nothing and asks for no further pass |
| MinMax.PropMax.FixIdempotent | src/main/java/org/chocosolver/solver/constraints/nary/min_max/PropMax.java:46-86 | on interval domains propagation is idempotent: running it again on its result gives the same domains |
| MinMax.PropMax.GapStopsShort | src/main/java/org/chocosolver/solver/constraints/nary/min_max/PropMax.java:46-86 | with one x whose non-enumerated domain {2, 3, 6} is not an interval and max in [4, 7], propagation gives x {6} and max {4, 5, 6}, and a second run fixes max to {6}: without interval domains the loop is not idempotent |
| MinMax.PropMax.SolutionMeetsBounds | src/main/java/org/chocosolver/solver/constraints/nary/min_max/PropMax.java:90-100 | in a solution no x lies wholly above max, and max is under some x's upper bound |
| MinMax.PropMax.EntailmentFalseSound | src/main/java/org/chocosolver/solver/constraints/nary/min_max/PropMax.java:90-100 | when the check answers FALSE, no assignment of the domains is a solution |
| MinMax.PropMax.EntailmentTrueSound | src/main/java/org/chocosolver/solver/constraints/nary/min_max/PropMax.java:101-112 | when the check answers TRUE, every assignment of the domains is a solution |
| MinMax.PropMax.IsEntailed | src/main/java/org/chocosolver/solver/constraints/nary/min_max/PropMax.java:88-114 | the three scans return the case analysis FALSE / UNDEFINED / TRUE / UNDEFINED in the source's order (whose soundness the two lemmas above state) |
| MinMax.PropMax.Explain | src/main/java/org/chocosolver/solver/constraints/nary/min_max/PropMax.java:118-164 | each literal's set is a narrowing of its variable's root set; the pivot literal comes first for max and second for an x; it lies on the pivot and narrows its root set to [m, inf) for a raised lower bound and to (-inf, m] for a lowered upper bound; any other event gives no literal |
| MinMax.PropMax.ExplainDecreasedX | src/main/java/org/chocosolver/solver/constraints/nary/min_max/PropMax.java:155-161 | the explanation of an x's upper bound lowered to m holds in every solution within the root sets |
| MinMax.PropMax.ExplainIncreasedMax | src/main/java/org/chocosolver/solver/constraints/nary/min_max/PropMax.java:123-133 | the explanation of max's lower bound raised to m holds in every solution within the root sets, as soon as some x has front-domain minimum m |

`FastCount.PropFastCount.Entailment` and `MinMax.PropMax.Entailment` are the entailment checks written as functions. Their partners are the two soundness lemmas each, and the `IsEntailed` methods are proved equal to them. `Clauses.ClauseBuilder.GetInitialDomain` (CB:111-113) is the plain lookup of a variable's initial domain. `Clauses.ClauseBuilder.State` is the builder's fields as a `BuilderState` value, the state on which `PutOn`, `ViewStep` and `Elim` are defined. `FastCount.PropFastCount.FilterSpec` is the first clause of `Filter`'s contract, named so that `Propagate` and `PropagateEvent` can state which sets filter runs from.

## Left out

- The backtrackable environment is not modelled. The stored sets and the trail that restores `possibles`, `mandatories` and the domains on backtrack become plain sets. On a contradiction the index sets are left as the source leaves them, possibly partly updated, and no invariant is promised for them then.
- `ContradictionException` and causes (`aCause`, `this`) are not modelled. A failure is the `Wipeout` or `Contradiction` value.
- Event masks and the propagation conditions are not modelled. The FULL_PROPAGATION bit is the boolean `full`, and the incLow / decUpp tests of `explain` are two booleans.
- `getPropagationConditions` is left out. It only tells the solver which events to send.
- Posting into the model (`falseConstraint().post()`, `member(...)`, `addClause(...)`) is not done. The builder returns a `Posted` value instead.
- The builder's `Model` constructor argument becomes the map of variable kinds and the map of initial domains. `WellFormedModel` requires that every variable has an initial domain and that a view's base was created before the view.
- The iteration order of the HashSet of recorded variables is the `order` parameter of `EliminateViews` and `BuildNogood`. That order seeds the worklist.
- Clauses.ClauseBuilder.EliminateViews: a base that is put but not recorded, because its set misses its initial domain, is still pushed when it is a view, as in the source; popping it then gives `MissingViewSet`.
- Clauses.ClauseBuilder.EliminateViews: a view that is popped without a recorded non-empty set ends elimination with the `MissingViewSet` outcome. This matches the source's null dereference, or its minimum of an empty set. The source's `assert set.size() == 1` is not enforced: the least value of the set is used, as the source does.
- Clauses.ClauseBuilder.EliminateViews: a view whose base is a recorded view already eliminated adds to that base's set, which is not eliminated again. The literal then survives on a view. The model keeps this behaviour of the source.
- `IntIterableRangeSet` is a shared mutable object. `put` stores the caller's set, so later in-place edits are visible through both references. The model uses set values, so aliasing between the caller's sets and the builder's sets is not captured.
- The mutable static flag `ELIMINATE_VIEWS` is fixed to true.
- `Integer.MIN_VALUE` and `IntIterableRangeSet.MIN/MAX` are not used. Bounds are mathematical integers, with unbounded ranges.
- `hasEnumeratedDomain` is the `enumerated` sequence given at construction. A variable without an enumerated domain is assumed to hold an interval. None of the modelled files guarantees it: a non-enumerated view with holes, such as a scaled interval variable, would break it. The model states the assumption as the predicate `Intervals` on the domains. It is not enforced, so the contracts that depend on it, among them `CardConsistent` after `Propagate` and `FixIsFixpoint`, take it as a hypothesis.
- Inside `explain`, `ExplanationForSignedClause`, `Implications` and `ValueSortedMap` are taken as inputs: the root sets and the front domains of the x's. So are the pivot's index and the event's value.
- `explain`'s `addLiteral` merging into an existing clause, and the meaning of its boolean flag, are not modelled. The literals are returned in order, with the flag as `pivot`.
- `explain` pivot aliasing, where the pivot is the same variable as different scope positions, is not modelled.
- Scope aliasing is not modelled. The solver lets one variable occupy two scope positions, for example max also among the x's, or an x repeated in the count. Those positions then share one domain, and an update through one is seen through the other. The model's `seq<Dom>` treats every position as an independent domain.
- MinMax.PropMax.Pass: on a contradiction the filter flag is left unspecified, since the source leaves the pass by an exception then.
- MinMax.PropMax.ExplainDecreasedX and MinMax.PropMax.ExplainIncreasedMax cover only two of the four cases of `explain`. The other two, max's upper bound lowered and an x's lower bound raised, are valid clauses only together with the rest of the implication graph, which is outside the model.
- `toString` of all three classes is left out.
- The benchmark `HamiltonianCycleBenchProbas.java` is not part of this model. It is driven by random numbers, writes files and builds constraints not modelled here.
- Java's 32-bit `int` is not modelled. The counts and the bounds are unbounded integers, so the source's `m - 1` and `m + 1` in `explain` at the ends of the `int` range are not captured.
