/**
 * The propagation engine: plain backtracking checking (PropBT), forward
 * checking (PropFC), generalized arc consistency with a FIFO queue of
 * constraints (PropGAC), and the minimum-remaining-values ordering (OrdMrv).
 *
 * A propagator receives the CSP and, optionally, the variable the search has
 * just assigned; it returns whether the search may continue and the list of
 * (variable, value) pairs it pruned, which the search uses to undo its work.
 */
module Propagators {
  import opened CspBase
  import Tuples

  // ---------------------------------------------------------------------------
  // Shared helpers
  // ---------------------------------------------------------------------------

  /** The constraints a propagator looks at: those on `newVar`, or all of them. */
  function Examined(csp: Csp, newVar: Option<VarId>): seq<nat>
    reads csp
  {
    if newVar.Some? then csp.ConsWithVar(newVar.value) else csp.AllCons()
  }

  /** Every scope entry is an assigned variable. */
  predicate AllAssigned(asg: seq<Option<int>>, scope: seq<VarId>)
    requires ScopeWithin(scope, |asg|)
  {
    forall i :: 0 <= i < |scope| ==> asg[scope[i]].Some?
  }

  /** get_n_unasgn() == 0 exactly when every scope variable is assigned. */
  lemma NoUnassignedMeansAllAssigned(asg: seq<Option<int>>, scope: seq<VarId>)
    requires ScopeWithin(scope, |asg|)
    ensures |UnassignedIn(asg, scope)| == 0 <==> AllAssigned(asg, scope)
  {
    if |UnassignedIn(asg, scope)| != 0 {
      assert UnassignedIn(asg, scope)[0] in UnassignedIn(asg, scope);
    } else {
      forall i | 0 <= i < |scope| ensures asg[scope[i]].Some? {
        assert scope[i] in scope && scope[i] !in UnassignedIn(asg, scope);
      }
    }
  }

  /** The assigned values of a fully assigned scope, in scope order. */
  function AssignedTuple(asg: seq<Option<int>>, scope: seq<VarId>): (t: seq<int>)
    requires ScopeWithin(scope, |asg|) && AllAssigned(asg, scope)
    ensures |t| == |scope|
  {
    seq(|scope|, i requires 0 <= i < |scope| => asg[scope[i]].value)
  }

  /** A constraint whose variables are all assigned and whose assigned values fail check. */
  predicate Violated(asg: seq<Option<int>>, c: Constraint)
    requires ScopeWithin(c.scope, |asg|)
  {
    AllAssigned(asg, c.scope) && !Check(c, AssignedTuple(asg, c.scope))
  }

  /** No constraint among `cs` is fully assigned and violated. */
  predicate NoneViolated(asg: seq<Option<int>>, cons: seq<Constraint>, cs: seq<nat>)
    requires ConsWithin(cons, |asg|)
    requires forall k :: 0 <= k < |cs| ==> cs[k] < |cons|
  {
    forall k :: 0 <= k < |cs| ==> !Violated(asg, cons[cs[k]])
  }

  /**
   * prune_value followed by appending the pair to the list of pruned values
   * (propagators.py:116-117 and 158-159): the log stays exact and one more
   * live pair is gone.
   */
  method PruneAndLog(csp: Csp, x: VarId, v: int, pruned: seq<Pruning>, ghost live0: seq<set<int>>)
    returns (pruned': seq<Pruning>)
    requires csp.Valid() && x < |csp.doms| && v in csp.live[x]
    requires ExactUndoLog(live0, csp.live, pruned)
    modifies csp
    ensures csp.Valid()
    ensures csp.doms == old(csp.doms) && csp.asg == old(csp.asg) && csp.cons == old(csp.cons)
    ensures csp.live == old(csp.live)[x := old(csp.live)[x] - {v}]
    ensures pruned' == pruned + [Pruning(x, v)]
    ensures ExactUndoLog(live0, csp.live, pruned')
    ensures LivePairs(csp.live) < LivePairs(old(csp.live))
  {
    ExactUndoLogExtend(live0, csp.live, pruned, x, v);
    LivePairsPrune(csp.live, x, v);
    csp.PruneValue(x, v);
    pruned' := pruned + [Pruning(x, v)];
  }

  // ---------------------------------------------------------------------------
  // prop_BT (propagators.py:75-89)
  // ---------------------------------------------------------------------------

  /**
   * Plain backtracking: never prunes; without a new variable it always
   * succeeds; otherwise it fails exactly when some constraint on the new
   * variable is fully assigned and its assigned values fail check.
   */
  method PropBT(csp: Csp, newVar: Option<VarId>) returns (ok: bool, pruned: seq<Pruning>)
    requires csp.Valid()
    ensures pruned == []
    ensures newVar.None? ==> ok
    ensures newVar.Some? ==> (ok <==> NoneViolated(csp.asg, csp.cons, csp.ConsWithVar(newVar.value)))
  {
    if newVar.None? {
      return true, [];
    }
    var asg, cons := csp.asg, csp.cons;
    var cs := csp.ConsWithVar(newVar.value);
    var i := 0;
    while i < |cs|
      invariant 0 <= i <= |cs|
      invariant forall k :: 0 <= k < i ==> !Violated(asg, cons[cs[k]])
    {
      var c := cons[cs[i]];
      NoUnassignedMeansAllAssigned(asg, c.scope);
      if |UnassignedIn(asg, c.scope)| == 0 {
        var vals := CollectAssigned(csp, c.scope);
        if !Check(c, vals) {
          assert Violated(asg, cons[cs[i]]);
          return false, [];
        }
      }
      i := i + 1;
    }
    return true, [];
  }

  /** The loop at propagators.py:83-86: each scope variable's assigned value, in order. */
  method CollectAssigned(csp: Csp, scope: seq<VarId>) returns (vals: seq<int>)
    requires csp.Valid() && ScopeWithin(scope, |csp.asg|) && AllAssigned(csp.asg, scope)
    ensures vals == AssignedTuple(csp.asg, scope)
  {
    vals := [];
    var j := 0;
    while j < |scope|
      invariant 0 <= j <= |scope|
      invariant |vals| == j && forall t :: 0 <= t < j ==> vals[t] == csp.asg[scope[t]].value
    {
      vals := vals + [csp.asg[scope[j]].value];
      j := j + 1;
    }
  }

  // ---------------------------------------------------------------------------
  // prop_FC (propagators.py:92-122)
  // ---------------------------------------------------------------------------

  /** The one unassigned variable of a constraint, when it has exactly one. */
  function FcTarget(asg: seq<Option<int>>, c: Constraint): (r: Option<VarId>)
    requires ScopeWithin(c.scope, |asg|)
    ensures r.Some? ==> r.value < |asg| && asg[r.value].None? && r.value in c.scope
    ensures r.Some? <==> |UnassignedIn(asg, c.scope)| == 1
  {
    var us := UnassignedIn(asg, c.scope);
    if |us| == 1 then Some(us[0]) else None
  }

  /** Every scope position not holding `u` holds an assigned variable. */
  predicate OthersAssigned(asg: seq<Option<int>>, scope: seq<VarId>, u: VarId)
    requires ScopeWithin(scope, |asg|)
  {
    forall i :: 0 <= i < |scope| && scope[i] != u ==> asg[scope[i]].Some?
  }

  /** The tuple forward checking tests: `v` where `u` sits, assigned values elsewhere. */
  function FcTuple(asg: seq<Option<int>>, scope: seq<VarId>, u: VarId, v: int): (t: seq<int>)
    requires ScopeWithin(scope, |asg|) && OthersAssigned(asg, scope, u)
    ensures |t| == |scope|
  {
    seq(|scope|, i requires 0 <= i < |scope| => if scope[i] == u then v else asg[scope[i]].value)
  }

  /** Value `v` of `u` passes check with the other scope variables at their assigned values. */
  predicate FcOk(asg: seq<Option<int>>, c: Constraint, u: VarId, v: int)
    requires ScopeWithin(c.scope, |asg|) && OthersAssigned(asg, c.scope, u)
  {
    Check(c, FcTuple(asg, c.scope, u, v))
  }

  /** Every remaining value of the constraint's single unassigned variable passes check. */
  predicate FcPasses(asg: seq<Option<int>>, live: seq<set<int>>, c: Constraint)
    requires ScopeWithin(c.scope, |asg|) && |live| == |asg|
  {
    match FcTarget(asg, c)
    case None => true
    case Some(u) =>
      OthersAssigned(asg, c.scope, u) && forall v :: v in live[u] ==> FcOk(asg, c, u, v)
  }

  /** The constraint's single unassigned variable, if any, still has a value. */
  predicate FcNonEmpty(asg: seq<Option<int>>, live: seq<set<int>>, c: Constraint)
    requires ScopeWithin(c.scope, |asg|) && |live| == |asg|
  {
    FcTarget(asg, c).Some? ==> live[FcTarget(asg, c).value] != {}
  }

  /** Every constraint among `cs` passes forward checking and keeps its target non-empty. */
  predicate AllForwardChecked(asg: seq<Option<int>>, live: seq<set<int>>, cons: seq<Constraint>, cs: seq<nat>)
    requires ConsWithin(cons, |asg|) && |live| == |asg|
    requires forall k :: 0 <= k < |cs| ==> cs[k] < |cons|
  {
    forall k :: 0 <= k < |cs| ==> FcPasses(asg, live, cons[cs[k]]) && FcNonEmpty(asg, live, cons[cs[k]])
  }

  /** Some constraint among `cs` has a single unassigned variable with no value left. */
  predicate SomeWipedOut(asg: seq<Option<int>>, live: seq<set<int>>, cons: seq<Constraint>, cs: seq<nat>)
    requires ConsWithin(cons, |asg|) && |live| == |asg|
    requires forall k :: 0 <= k < |cs| ==> cs[k] < |cons|
  {
    exists k :: 0 <= k < |cs| && !FcNonEmpty(asg, live, cons[cs[k]])
  }

  /**
   * What forward checking over `cs` guarantees about the values it pruned
   * from `live0` to reach `live`: the log is exact, every entry is refuted by
   * a constraint of `cs`, and no solution is lost.
   */
  ghost predicate FcSound(asg: seq<Option<int>>, cons: seq<Constraint>, cs: seq<nat>,
                          live0: seq<set<int>>, live: seq<set<int>>, pruned: seq<Pruning>)
    requires ConsWithin(cons, |asg|) && |live0| == |asg| && |live| == |asg|
    requires forall k :: 0 <= k < |cs| ==> cs[k] < |cons|
  {
    ExactUndoLog(live0, live, pruned) &&
    (forall j :: 0 <= j < |pruned| ==> FcRefutes(asg, cons, cs, pruned[j])) &&
    KeepsSolutions(cons, asg, live0, live)
  }

  /** The pruned pair is refuted by one of `cs`: its variable is that constraint's target and the tuple fails. */
  predicate FcRefutes(asg: seq<Option<int>>, cons: seq<Constraint>, cs: seq<nat>, p: Pruning)
    requires ConsWithin(cons, |asg|)
    requires forall k :: 0 <= k < |cs| ==> cs[k] < |cons|
  {
    exists k :: 0 <= k < |cs| && FcTarget(asg, cons[cs[k]]) == Some(p.variable) &&
      OthersAssigned(asg, cons[cs[k]].scope, p.variable) && !FcOk(asg, cons[cs[k]], p.variable, p.value)
  }

  /**
   * A value of the single unassigned variable whose tuple fails check is
   * taken by no solution that agrees with the current domains.
   */
  lemma FcExcludesSolutions(cons: seq<Constraint>, k: nat, asg: seq<Option<int>>, live: seq<set<int>>,
                            u: VarId, v: int, s: seq<int>)
    requires k < |cons| && ConsWithin(cons, |asg|) && |live| == |asg|
    requires OthersAssigned(asg, cons[k].scope, u)
    requires !FcOk(asg, cons[k], u, v)
    requires IsSolution(cons, s) && Within(s, CurView(asg, live))
    ensures u < |s| ==> s[u] != v
  {
    if u < |s| {
      var scope := cons[k].scope;
      forall i | 0 <= i < |scope| && scope[i] != u ensures s[scope[i]] == asg[scope[i]].value {
        assert s[scope[i]] in CurView(asg, live)[scope[i]];
      }
      assert Project(s, scope) == FcTuple(asg, scope, u, s[u]);
    }
  }

  /** The assigned values of every scope position except `p`, in scope order. */
  function OthersTuple(asg: seq<Option<int>>, scope: seq<VarId>, p: nat): (t: seq<int>)
    requires ScopeWithin(scope, |asg|) && p < |scope|
    requires forall i :: 0 <= i < |scope| && i != p ==> asg[scope[i]].Some?
    ensures |t| == |scope| - 1
  {
    seq(|scope| - 1, i requires 0 <= i < |scope| - 1 => asg[scope[if i < p then i else i + 1]].value)
  }

  /** Inserting `v` at `u`'s position gives the tested tuple; popping it gives the list back. */
  lemma InsertPop(asg: seq<Option<int>>, scope: seq<VarId>, u: VarId, p: nat, v: int)
    requires ScopeWithin(scope, |asg|) && p < |scope| && scope[p] == u && u < |asg| && asg[u].None?
    requires forall i :: 0 <= i < |scope| && i != p ==> asg[scope[i]].Some?
    ensures OthersAssigned(asg, scope, u)
    ensures var o := OthersTuple(asg, scope, p);
      o[..p] + [v] + o[p..] == FcTuple(asg, scope, u, v) &&
      (o[..p] + [v] + o[p..])[..p] + (o[..p] + [v] + o[p..])[p + 1..] == o
  {
    var o := OthersTuple(asg, scope, p);
    var w := o[..p] + [v] + o[p..];
    assert |w| == |scope|;
    forall i | 0 <= i < |scope| ensures w[i] == FcTuple(asg, scope, u, v)[i] {
      if i < p {
        assert w[i] == o[i];
      } else if i > p {
        assert w[i] == o[i - 1];
      }
    }
    assert w[..p] == o[..p] && w[p + 1..] == o[p..];
  }

  /**
   * The loop at propagators.py:107-111: collect the assigned values of the
   * other scope variables and remember the position of `u`.
   */
  method CollectOthers(csp: Csp, scope: seq<VarId>, u: VarId, ghost p: nat) returns (idx: nat, vals: seq<int>)
    requires csp.Valid() && ScopeWithin(scope, |csp.asg|)
    requires p < |scope| && scope[p] == u && u < |csp.asg| && csp.asg[u].None?
    requires forall i :: 0 <= i < |scope| && i != p ==> csp.asg[scope[i]].Some?
    ensures idx == p && vals == OthersTuple(csp.asg, scope, p)
  {
    vals := [];
    idx := 0;
    var j := 0;
    while j < |scope|
      invariant 0 <= j <= |scope|
      invariant j <= p ==> |vals| == j && forall t :: 0 <= t < j ==> vals[t] == csp.asg[scope[t]].value
      invariant j > p ==> idx == p && |vals| == j - 1
      invariant j > p ==> forall t :: 0 <= t < j - 1 ==> vals[t] == csp.asg[scope[if t < p then t else t + 1]].value
    {
      if scope[j] != u {
        vals := vals + [csp.asg[scope[j]].value];
      } else {
        idx := j;
      }
      j := j + 1;
    }
  }

  /**
   * Forward checking: for each examined constraint with exactly one
   * unassigned variable, prune every value of that variable whose tuple
   * fails check; stop with failure as soon as such a variable has no value
   * left. The log is exact, each entry is refuted by an examined constraint,
   * no solution is lost, and success means every examined constraint passes.
   */
  method PropFC(csp: Csp, newVar: Option<VarId>) returns (ok: bool, pruned: seq<Pruning>)
    requires csp.Valid()
    modifies csp
    ensures csp.Valid()
    ensures csp.doms == old(csp.doms) && csp.asg == old(csp.asg) && csp.cons == old(csp.cons)
    ensures ExactUndoLog(old(csp.live), csp.live, pruned)
    ensures forall j :: 0 <= j < |pruned| ==> FcRefutes(csp.asg, csp.cons, old(Examined(csp, newVar)), pruned[j])
    ensures ok ==> AllForwardChecked(csp.asg, csp.live, csp.cons, old(Examined(csp, newVar)))
    ensures !ok ==> SomeWipedOut(csp.asg, csp.live, csp.cons, old(Examined(csp, newVar)))
    ensures KeepsSolutions(csp.cons, csp.asg, old(csp.live), csp.live)
  {
    var cs := Examined(csp, newVar);
    ok, pruned := ForwardCheckAll(csp, cs);
  }

  /** The loop at propagators.py:102-120 over the examined constraints `cs`. */
  method ForwardCheckAll(csp: Csp, cs: seq<nat>) returns (ok: bool, pruned: seq<Pruning>)
    requires csp.Valid() && forall k :: 0 <= k < |cs| ==> cs[k] < |csp.cons|
    modifies csp
    ensures csp.Valid()
    ensures csp.doms == old(csp.doms) && csp.asg == old(csp.asg) && csp.cons == old(csp.cons)
    ensures FcSound(csp.asg, csp.cons, cs, old(csp.live), csp.live, pruned)
    ensures ok ==> AllForwardChecked(csp.asg, csp.live, csp.cons, cs)
    ensures !ok ==> SomeWipedOut(csp.asg, csp.live, csp.cons, cs)
  {
    pruned := [];
    ghost var live0 := csp.live;
    ExactUndoLogEmpty(live0);
    assert FcSound(csp.asg, csp.cons, cs, live0, csp.live, pruned);
    ghost var asg, cons := csp.asg, csp.cons;
    var i := 0;
    while i < |cs|
      invariant 0 <= i <= |cs|
      invariant csp.Valid() && csp.doms == old(csp.doms) && csp.asg == asg && csp.cons == cons
      invariant FcSound(asg, cons, cs, live0, csp.live, pruned)
      invariant AllForwardChecked(asg, csp.live, cons, cs[..i])
    {
      var wiped;
      wiped, pruned := ForwardCheckOne(csp, cs, i, live0, pruned);
      if wiped {
        return false, pruned;
      }
      i := i + 1;
    }
    assert cs[..i] == cs;
    return true, pruned;
  }

  /**
   * One pass of the loop at propagators.py:102-120, for constraint number
   * `i` of `cs`; `wiped` reports the failure return at lines 119-120.
   */
  method ForwardCheckOne(csp: Csp, cs: seq<nat>, i: nat, ghost live0: seq<set<int>>, pruned: seq<Pruning>)
    returns (wiped: bool, pruned': seq<Pruning>)
    requires csp.Valid() && forall k :: 0 <= k < |cs| ==> cs[k] < |csp.cons|
    requires i < |cs| && |live0| == |csp.live|
    requires FcSound(csp.asg, csp.cons, cs, live0, csp.live, pruned)
    requires AllForwardChecked(csp.asg, csp.live, csp.cons, cs[..i])
    modifies csp
    ensures csp.Valid()
    ensures csp.doms == old(csp.doms) && csp.asg == old(csp.asg) && csp.cons == old(csp.cons)
    ensures FcSound(csp.asg, csp.cons, cs, live0, csp.live, pruned')
    ensures !wiped ==> AllForwardChecked(csp.asg, csp.live, csp.cons, cs[..i + 1])
    ensures wiped ==> SomeWipedOut(csp.asg, csp.live, csp.cons, cs)
  {
    var c := csp.cons[cs[i]];
    if |UnassignedIn(csp.asg, c.scope)| == 1 {
      ghost var before := csp.live;
      var u, more := ForwardCheck(csp, cs[i]);
      FcConstraintStep(csp.asg, csp.cons, cs, i, live0, before, csp.live, pruned, more, u);
      pruned' := pruned + more;
      CurSizeZero(csp, u);
      wiped := csp.CurSize(u) == 0;
    } else {
      FcSkip(csp.asg, csp.live, csp.cons, cs, i);
      wiped, pruned' := false, pruned;
    }
  }

  /** A constraint without exactly one unassigned variable is left alone. */
  lemma FcSkip(asg: seq<Option<int>>, live: seq<set<int>>, cons: seq<Constraint>, cs: seq<nat>, i: nat)
    requires ConsWithin(cons, |asg|) && |live| == |asg|
    requires forall k :: 0 <= k < |cs| ==> cs[k] < |cons|
    requires i < |cs| && |UnassignedIn(asg, cons[cs[i]].scope)| != 1
    requires AllForwardChecked(asg, live, cons, cs[..i])
    ensures AllForwardChecked(asg, live, cons, cs[..i + 1])
  {
    assert cs[..i + 1] == cs[..i] + [cs[i]];
  }

  /**
   * What one forward-checked constraint (number `i` of `cs`) adds: the log
   * stays exact, its new entries are refuted by that constraint, earlier
   * constraints stay checked, no solution is lost, and either the target
   * still has values or the call has found its wipeout.
   */
  lemma FcConstraintStep(asg: seq<Option<int>>, cons: seq<Constraint>, cs: seq<nat>, i: nat,
                         live0: seq<set<int>>, before: seq<set<int>>, after: seq<set<int>>,
                         pruned: seq<Pruning>, more: seq<Pruning>, u: VarId)
    requires ConsWithin(cons, |asg|) && |live0| == |asg| && |before| == |asg|
    requires forall k :: 0 <= k < |cs| ==> cs[k] < |cons|
    requires i < |cs| && FcTarget(asg, cons[cs[i]]) == Some(u) && OthersAssigned(asg, cons[cs[i]].scope, u)
    requires after == before[u := FcSurvivors(asg, cons[cs[i]], u, before[u])]
    requires FcSound(asg, cons, cs, live0, before, pruned) && ExactUndoLog(before, after, more)
    requires AllForwardChecked(asg, before, cons, cs[..i])
    ensures FcSound(asg, cons, cs, live0, after, pruned + more)
    ensures after[u] != {} ==> AllForwardChecked(asg, after, cons, cs[..i + 1])
    ensures after[u] == {} ==> SomeWipedOut(asg, after, cons, cs)
  {
    var c := cons[cs[i]];
    ExactUndoLogConcat(live0, before, after, pruned, more);
    forall j | 0 <= j < |pruned + more| ensures FcRefutes(asg, cons, cs, (pruned + more)[j]) {
      if j >= |pruned| {
        var q := more[j - |pruned|];
        assert (pruned + more)[j] == q;
        assert q.variable == u;
        assert !FcOk(asg, c, u, q.value);
      } else {
        assert (pruned + more)[j] == pruned[j];
      }
    }
    FcFrame(asg, before, after, cons, cs[..i], u);
    assert cs[..i + 1] == cs[..i] + [cs[i]];
    forall s | IsSolution(cons, s) && Within(s, CurView(asg, live0))
      ensures Within(s, CurView(asg, after))
    {
      forall x | 0 <= x < |s| ensures s[x] in CurView(asg, after)[x] {
        if x == u {
          assert s[u] in CurView(asg, before)[u];
          if !FcOk(asg, c, u, s[u]) {
            FcExcludesSolutions(cons, cs[i], asg, before, u, s[u], s);
          }
        }
      }
    }
  }

  /** Shrinking only the domain of `u` keeps forward checks passed, and non-emptiness where `u` is not the target. */
  lemma FcFrame(asg: seq<Option<int>>, big: seq<set<int>>, small: seq<set<int>>, cons: seq<Constraint>,
                cs: seq<nat>, u: VarId)
    requires ConsWithin(cons, |asg|) && |big| == |asg| && |small| == |asg|
    requires forall k :: 0 <= k < |cs| ==> cs[k] < |cons|
    requires u < |asg| && small == big[u := small[u]] && small[u] <= big[u]
    requires AllForwardChecked(asg, big, cons, cs)
    ensures forall k :: 0 <= k < |cs| ==> FcPasses(asg, small, cons[cs[k]])
    ensures forall k :: 0 <= k < |cs| && FcTarget(asg, cons[cs[k]]) != Some(u) ==> FcNonEmpty(asg, small, cons[cs[k]])
  {
  }

  /** The values among `vs` that fail forward checking. */
  function FcFailing(asg: seq<Option<int>>, c: Constraint, u: VarId, vs: seq<int>): (r: set<int>)
    requires ScopeWithin(c.scope, |asg|) && OthersAssigned(asg, c.scope, u)
    ensures forall v :: v in r <==> v in vs && !FcOk(asg, c, u, v)
  {
    set v | v in vs && !FcOk(asg, c, u, v)
  }

  /** Extending the scanned prefix of a distinct list by one value. */
  lemma FcFailingStep(asg: seq<Option<int>>, c: Constraint, u: VarId, dom: seq<int>, j: nat, live: set<int>)
    requires ScopeWithin(c.scope, |asg|) && OthersAssigned(asg, c.scope, u)
    requires j < |dom| && Distinct(dom)
    ensures dom[j] !in FcFailing(asg, c, u, dom[..j])
    ensures FcFailing(asg, c, u, dom[..j + 1]) ==
      FcFailing(asg, c, u, dom[..j]) + (if FcOk(asg, c, u, dom[j]) then {} else {dom[j]})
  {
    assert dom[..j + 1] == dom[..j] + [dom[j]];
  }

  /** The values of `live` that pass forward checking: what FC leaves of `u`'s domain. */
  function FcSurvivors(asg: seq<Option<int>>, c: Constraint, u: VarId, live: set<int>): (r: set<int>)
    requires ScopeWithin(c.scope, |asg|) && OthersAssigned(asg, c.scope, u)
    ensures forall v :: v in r <==> v in live && FcOk(asg, c, u, v)
  {
    set v | v in live && FcOk(asg, c, u, v)
  }

  /**
   * The body of propagators.py:103-120 for one constraint with a single
   * unassigned variable `u`: the assigned values are collected in scope
   * order, each value of a snapshot of `u`'s current domain is inserted at
   * `u`'s position and tested, and the failing ones are pruned and logged.
   * Exactly the failing values go, nothing else changes, and the log is exact.
   */
  method ForwardCheck(csp: Csp, k: nat) returns (u: VarId, pruned: seq<Pruning>)
    requires csp.Valid() && k < |csp.cons|
    requires |UnassignedIn(csp.asg, csp.cons[k].scope)| == 1
    modifies csp
    ensures csp.Valid()
    ensures csp.doms == old(csp.doms) && csp.asg == old(csp.asg) && csp.cons == old(csp.cons)
    ensures FcTarget(csp.asg, csp.cons[k]) == Some(u) && OthersAssigned(csp.asg, csp.cons[k].scope, u)
    ensures csp.live == old(csp.live)[u := FcSurvivors(csp.asg, csp.cons[k], u, old(csp.live)[u])]
    ensures ExactUndoLog(old(csp.live), csp.live, pruned)
  {
    var c := csp.cons[k];
    u := UnassignedIn(csp.asg, c.scope)[0];
    ghost var p := SingleUnassigned(csp.asg, c.scope);
    var idx, vals := CollectOthers(csp, c.scope, u, p);
    var dom := csp.CurDomain(u);
    assert csp.Cur()[u] == csp.live[u];
    pruned := PruneFailing(csp, c, u, p, idx, vals, dom);
  }

  /** The loop at propagators.py:112-118 over a snapshot `dom` of `u`'s current domain. */
  method PruneFailing(csp: Csp, c: Constraint, u: VarId, ghost p: nat, idx: nat, vals: seq<int>, dom: seq<int>)
    returns (pruned: seq<Pruning>)
    requires csp.Valid() && ScopeWithin(c.scope, |csp.asg|)
    requires p < |c.scope| && c.scope[p] == u && u < |csp.asg| && csp.asg[u].None?
    requires forall i :: 0 <= i < |c.scope| && i != p ==> csp.asg[c.scope[i]].Some?
    requires idx == p && vals == OthersTuple(csp.asg, c.scope, p)
    requires Distinct(dom) && forall v :: v in dom <==> v in csp.live[u]
    modifies csp
    ensures csp.Valid()
    ensures csp.doms == old(csp.doms) && csp.asg == old(csp.asg) && csp.cons == old(csp.cons)
    ensures OthersAssigned(csp.asg, c.scope, u)
    ensures csp.live == old(csp.live)[u := FcSurvivors(csp.asg, c, u, old(csp.live)[u])]
    ensures ExactUndoLog(old(csp.live), csp.live, pruned)
  {
    ghost var asg, live0 := csp.asg, csp.live;
    InsertPop(asg, c.scope, u, p, 0);
    pruned := [];
    ExactUndoLogEmpty(live0);
    assert FcFailing(asg, c, u, dom[..0]) == {};
    var vals := vals;
    var j := 0;
    while j < |dom|
      invariant 0 <= j <= |dom|
      invariant csp.Valid() && csp.doms == old(csp.doms) && csp.asg == asg && csp.cons == old(csp.cons)
      invariant |csp.live| == |live0| && forall x :: 0 <= x < |live0| && x != u ==> csp.live[x] == live0[x]
      invariant csp.live[u] == live0[u] - FcFailing(asg, c, u, dom[..j])
      invariant ExactUndoLog(live0, csp.live, pruned)
      invariant vals == OthersTuple(asg, c.scope, p)
    {
      var v := dom[j];
      FcFailingStep(asg, c, u, dom, j, live0[u]);
      InsertPop(asg, c.scope, u, p, v);
      vals := vals[..idx] + [v] + vals[idx..];
      if !Check(c, vals) {
        pruned := PruneAndLog(csp, u, v, pruned, live0);
      }
      vals := vals[..idx] + vals[idx + 1..];
      j := j + 1;
    }
    assert dom[..j] == dom;
    assert csp.live[u] == FcSurvivors(asg, c, u, live0[u]);
    assert csp.live == live0[u := csp.live[u]];
  }

  // ---------------------------------------------------------------------------
  // prop_GAC (propagators.py:125-175)
  // ---------------------------------------------------------------------------

  /** A queue of constraint indices: each below `n`, none twice. */
  predicate QueueOk(q: seq<nat>, n: nat) {
    (forall i :: 0 <= i < |q| ==> q[i] < n) &&
    (forall i, j :: 0 <= i < j < |q| ==> q[i] != q[j])
  }

  /** Every constraint not pending (not in `pending`) is arc consistent. */
  ghost predicate Settled(cons: seq<Constraint>, asg: seq<Option<int>>, live: seq<set<int>>, pending: seq<nat>)
    requires ConsWithin(cons, |asg|) && |live| == |asg|
  {
    forall k :: 0 <= k < |cons| && k !in pending ==> ArcConsistent(cons[k], CurView(asg, live))
  }

  /** Pending more constraints keeps a settled state settled. */
  lemma SettledWeaken(cons: seq<Constraint>, asg: seq<Option<int>>, live: seq<set<int>>,
                      pending: seq<nat>, pending': seq<nat>)
    requires ConsWithin(cons, |asg|) && |live| == |asg|
    requires forall k :: k in pending ==> k in pending'
    requires Settled(cons, asg, live, pending)
    ensures Settled(cons, asg, live, pending')
  {
  }

  /** The popped constraint leaves the pending list once it is queued again or arc consistent. */
  lemma SettledDrop(cons: seq<Constraint>, asg: seq<Option<int>>, live: seq<set<int>>, queue: seq<nat>, c: nat)
    requires ConsWithin(cons, |asg|) && |live| == |asg| && c < |cons|
    requires Settled(cons, asg, live, queue + [c])
    requires c in queue || ArcConsistent(cons[c], CurView(asg, live))
    ensures Settled(cons, asg, live, queue)
  {
  }

  /**
   * Pruning `v` from `x` keeps the state settled once every constraint on
   * `x` is pending: the others do not see `x`'s domain.
   */
  lemma SettledAfterPrune(cons: seq<Constraint>, asg: seq<Option<int>>, live: seq<set<int>>,
                          x: VarId, v: int, pending: seq<nat>, pending': seq<nat>)
    requires ConsWithin(cons, |asg|) && |live| == |asg| && x < |asg|
    requires forall k :: k in pending ==> k in pending'
    requires forall k :: 0 <= k < |cons| && x in cons[k].scope ==> k in pending'
    requires Settled(cons, asg, live, pending)
    ensures Settled(cons, asg, live[x := live[x] - {v}], pending')
  {
    var cur, cur' := CurView(asg, live), CurView(asg, live[x := live[x] - {v}]);
    forall k | 0 <= k < |cons| && k !in pending' ensures ArcConsistent(cons[k], cur') {
      forall i | 0 <= i < |cons[k].scope| ensures cur[cons[k].scope[i]] == cur'[cons[k].scope[i]] {
        assert cons[k].scope[i] in cons[k].scope;
      }
      ArcConsistentFrame(cons[k], cur, cur');
    }
  }

  /** Pruning a value without support in some constraint of the problem keeps every solution. */
  lemma GacPruneKeepsSolutions(cons: seq<Constraint>, asg: seq<Option<int>>, live0: seq<set<int>>,
                               live: seq<set<int>>, k: nat, x: VarId, v: int)
    requires k < |cons| && ConsWithin(cons, |asg|) && |live0| == |asg| && |live| == |asg| && x < |asg|
    requires !Supported(cons[k], x, v, CurView(asg, live))
    requires KeepsSolutions(cons, asg, live0, live)
    ensures KeepsSolutions(cons, asg, live0, live[x := live[x] - {v}])
  {
    forall s | IsSolution(cons, s) && Within(s, CurView(asg, live))
      ensures Within(s, CurView(asg, live[x := live[x] - {v}]))
    {
      UnsupportedExcludesSolutions(cons, k, x, v, CurView(asg, live), s);
    }
    KeepsSolutionsTrans(cons, asg, live0, live, live[x := live[x] - {v}]);
  }

  /** Every assigned variable's value is still live. */
  predicate AssignedLive(asg: seq<Option<int>>, live: seq<set<int>>)
    requires |live| == |asg|
  {
    forall y :: 0 <= y < |asg| && asg[y].Some? ==> asg[y].value in live[y]
  }

  /**
   * The wipeout test of propagators.py:169 as intended: the variable has no
   * value left, which for an assigned variable means its value was pruned.
   */
  predicate Wipeout(dom: seq<int>, live: set<int>, a: Option<int>) {
    |CurDomainOf(dom, live, a)| == 0 || (a.Some? && a.value !in live)
  }

  /** The test of propagators.py:169 as written: cur_domain_size() == 0. */
  predicate WipeoutAsWritten(dom: seq<int>, live: set<int>, a: Option<int>) {
    |CurDomainOf(dom, live, a)| == 0
  }

  /**
   * The intended test fires exactly when no value of the domain is both live
   * and consistent with the assignment.
   */
  lemma WipeoutMeansNoValue(dom: seq<int>, live: set<int>, a: Option<int>)
    requires live <= Elems(dom) && (a.Some? ==> a.value in dom)
    ensures Wipeout(dom, live, a) <==> !exists v :: v in dom && v in live && (a.None? || a.value == v)
  {
    if a.None? {
      if |Filter(dom, live)| != 0 {
        var v := Filter(dom, live)[0];
        assert v in Filter(dom, live);
      }
    } else {
      assert |CurDomainOf(dom, live, a)| == 1;
      if a.value in live {
        var w := a.value;
        assert w in dom && w in live && (a.None? || a.value == w);
        assert !Wipeout(dom, live, a);
      } else {
        assert Wipeout(dom, live, a);
      }
    }
  }

  /**
   * As written, pruning an assigned variable's value goes unnoticed: its
   * current domain is still the one assigned value, so cur_domain_size() is
   * still 1, the as-written test does not fire, and the value, whose support
   * has not changed, is pruned again on the next visit. On the two cells of
   * the first row of the prefilled 2 by 2 grid with rows 1 . 1 and 2 . 2
   * (both assigned 1, one not-equal constraint over the domain [1, 2]), the
   * second prune of (cell 0, 1) repeats a log entry, so the log can never be
   * exact.
   */
  lemma AsWrittenPrunesAgain()
    ensures !Supported(Constraint([0, 1], Tuples.NotEqualTuples([1, 2])), 0, 1, CurView([Some(1), Some(1)], [{1}, {1}]))
    ensures !WipeoutAsWritten([1], {}, Some(1)) && Wipeout([1], {}, Some(1))
    ensures CurView([Some(1), Some(1)], [{}, {1}]) == CurView([Some(1), Some(1)], [{1}, {1}])
    ensures !Supported(Constraint([0, 1], Tuples.NotEqualTuples([1, 2])), 0, 1, CurView([Some(1), Some(1)], [{}, {1}]))
    ensures !ExactUndoLog([{1}, {1}], [{}, {1}], [Pruning(0, 1), Pruning(0, 1)])
  {
    var asg := [Some(1), Some(1)];
    assert CurView(asg, [{}, {1}]) == CurView(asg, [{1}, {1}]);
    var log := [Pruning(0, 1), Pruning(0, 1)];
    assert log[0] == log[1];
  }

  /** The variables whose domains changed are not empty; assigned values are live. */
  predicate Healthy(asg: seq<Option<int>>, live0: seq<set<int>>, live: seq<set<int>>)
    requires |live0| == |asg| && |live| == |asg|
  {
    AssignedLive(asg, live) &&
    forall y :: 0 <= y < |asg| && live[y] != live0[y] ==> live[y] != {}
  }

  /** Some constraint gives the pruned value no support under the domains `live`. */
  ghost predicate GacRefutes(cons: seq<Constraint>, asg: seq<Option<int>>, live: seq<set<int>>, p: Pruning)
    requires ConsWithin(cons, |asg|) && |live| == |asg|
  {
    exists k :: 0 <= k < |cons| && !Supported(cons[k], p.variable, p.value, CurView(asg, live))
  }

  /**
   * Every entry of the log was unsupported in some constraint under the
   * domains of the moment it was pruned: the start with the earlier entries
   * taken out.
   */
  ghost predicate AllRefuted(cons: seq<Constraint>, asg: seq<Option<int>>, live0: seq<set<int>>, log: seq<Pruning>)
    requires ConsWithin(cons, |asg|) && |live0| == |asg|
  {
    forall j :: 0 <= j < |log| ==> RefutedAt(cons, asg, live0, log, j)
  }

  /** Entry `j` of the log was unsupported when it was pruned. */
  ghost predicate RefutedAt(cons: seq<Constraint>, asg: seq<Option<int>>, live0: seq<set<int>>, log: seq<Pruning>, j: nat)
    requires ConsWithin(cons, |asg|) && |live0| == |asg| && j < |log|
  {
    GacRefutes(cons, asg, Replay(live0, log[..j]), log[j])
  }

  /** The log is exact, every pruned value lacked support when it went, and no solution is lost. */
  ghost predicate GacSound(cons: seq<Constraint>, asg: seq<Option<int>>,
                           live0: seq<set<int>>, live: seq<set<int>>, pruned: seq<Pruning>)
    requires ConsWithin(cons, |asg|) && |live0| == |asg| && |live| == |asg|
  {
    ExactUndoLog(live0, live, pruned) && AllRefuted(cons, asg, live0, pruned) &&
    KeepsSolutions(cons, asg, live0, live)
  }

  /** Logging one more value that has no support under the current domains keeps every entry refuted. */
  lemma GacRefutesExtend(cons: seq<Constraint>, asg: seq<Option<int>>, live0: seq<set<int>>,
                         live: seq<set<int>>, pruned: seq<Pruning>, k: nat, x: VarId, v: int)
    requires ConsWithin(cons, |asg|) && |live0| == |asg| && |live| == |asg| && k < |cons|
    requires ExactUndoLog(live0, live, pruned) && AllRefuted(cons, asg, live0, pruned)
    requires !Supported(cons[k], x, v, CurView(asg, live))
    ensures AllRefuted(cons, asg, live0, pruned + [Pruning(x, v)])
  {
    var log := pruned + [Pruning(x, v)];
    forall j | 0 <= j < |log| ensures RefutedAt(cons, asg, live0, log, j) {
      if j < |pruned| {
        assert log[..j] == pruned[..j] && log[j] == pruned[j];
        assert RefutedAt(cons, asg, live0, pruned, j);
      } else {
        assert log[..j] == pruned && log[j] == Pruning(x, v);
        ReplayExact(live0, live, pruned);
        assert !Supported(cons[k], x, v, CurView(asg, Replay(live0, log[..j])));
      }
    }
  }

  /**
   * A value GAC pruned still has no support in the constraint that refuted
   * it once the call is over: domains only shrink, and support never grows
   * back under smaller domains.
   */
  lemma GacPrunedStayUnsupported(cons: seq<Constraint>, asg: seq<Option<int>>, live0: seq<set<int>>,
                                 live: seq<set<int>>, pruned: seq<Pruning>, j: nat)
    requires ConsWithin(cons, |asg|) && |live0| == |asg| && |live| == |asg|
    requires GacSound(cons, asg, live0, live, pruned) && j < |pruned|
    ensures GacRefutes(cons, asg, live, pruned[j])
  {
    var at := Replay(live0, pruned[..j]);
    assert RefutedAt(cons, asg, live0, pruned, j);
    var k :| 0 <= k < |cons| && !Supported(cons[k], pruned[j].variable, pruned[j].value, CurView(asg, at));
    ReplayPrefix(live0, live, pruned, j);
    if Supported(cons[k], pruned[j].variable, pruned[j].value, CurView(asg, live)) {
      assert Shrunk(CurView(asg, live), CurView(asg, at));
      SupportedMonotone(cons[k], pruned[j].variable, pruned[j].value, CurView(asg, live), CurView(asg, at));
    }
  }

  /** A healthy variable is not wiped out. */
  lemma HealthyNotWiped(doms: seq<seq<int>>, asg: seq<Option<int>>, live0: seq<set<int>>,
                        live: seq<set<int>>, y: VarId)
    requires |doms| == |asg| && |live0| == |asg| && |live| == |asg| && y < |asg|
    requires live[y] <= Elems(doms[y]) && Healthy(asg, live0, live) && live[y] != live0[y]
    ensures !Wipeout(doms[y], live[y], asg[y])
  {
    if asg[y].None? {
      FilterEmpty(doms[y], live[y]);
      assert Elems(doms[y]) * live[y] == live[y];
    }
  }

  /** Every value of each of the first `p` scope positions has support in `c`. */
  ghost predicate ScannedUpTo(c: Constraint, cur: seq<set<int>>, p: nat)
    requires ScopeWithin(c.scope, |cur|) && p <= |c.scope|
  {
    forall q, w :: 0 <= q < p && w in cur[c.scope[q]] ==> Supported(c, c.scope[q], w, cur)
  }

  /**
   * Generalized arc consistency: a FIFO queue of constraints, seeded with
   * the constraints on `newVar` (or all of them); each popped constraint's
   * variables are scanned, every value without support is pruned, and the
   * constraints on its variable are queued again. The log is exact, no
   * solution is lost, failure means some variable is wiped out, and success
   * leaves assigned values live and pruned variables non-empty. If every
   * constraint not queued at the start is arc consistent (always so for the
   * initial call, which queues them all), success means every constraint is
   * arc consistent. The queue loop terminates: each pass either prunes a
   * live pair or shortens the queue.
   */
  method PropGAC(csp: Csp, newVar: Option<VarId>) returns (ok: bool, pruned: seq<Pruning>)
    requires csp.Valid() && AssignedLive(csp.asg, csp.live)
    modifies csp
    ensures csp.Valid()
    ensures csp.doms == old(csp.doms) && csp.asg == old(csp.asg) && csp.cons == old(csp.cons)
    ensures GacSound(csp.cons, csp.asg, old(csp.live), csp.live, pruned)
    ensures ok ==> Healthy(csp.asg, old(csp.live), csp.live)
    ensures ok ==> forall y :: 0 <= y < |csp.doms| && csp.live[y] != old(csp.live)[y] ==>
      !Wipeout(csp.doms[y], csp.live[y], csp.asg[y])
    ensures !ok ==> exists x :: 0 <= x < |csp.doms| && Wipeout(csp.doms[x], csp.live[x], csp.asg[x])
    ensures ok && old(Settled(csp.cons, csp.asg, csp.live, Examined(csp, newVar))) ==>
      Settled(csp.cons, csp.asg, csp.live, [])
  {
    var queue := Examined(csp, newVar);
    ghost var live0, asg, cons := csp.live, csp.asg, csp.cons;
    ghost var startAC := Settled(cons, asg, live0, queue);
    pruned := [];
    ExactUndoLogEmpty(live0);
    assert GacSound(cons, asg, live0, csp.live, pruned);
    while |queue| > 0
      invariant csp.Valid() && csp.doms == old(csp.doms) && csp.asg == asg && csp.cons == cons
      invariant QueueOk(queue, |cons|)
      invariant GacSound(cons, asg, live0, csp.live, pruned)
      invariant Healthy(asg, live0, csp.live)
      invariant startAC ==> Settled(cons, asg, csp.live, queue)
      decreases LivePairs(csp.live), |queue|
    {
      ghost var before := queue;
      var c := queue[0];
      queue := queue[1..];
      if startAC {
        assert forall k :: k in before ==> k in queue + [c] by {
          assert before == [c] + queue;
        }
        SettledWeaken(cons, asg, csp.live, before, queue + [c]);
      }
      var wiped;
      ghost var clean;
      wiped, queue, pruned, clean := ReviseConstraint(csp, c, queue, pruned, live0, startAC);
      if wiped {
        return false, pruned;
      }
    }
    forall y | 0 <= y < |csp.doms| && csp.live[y] != live0[y]
      ensures !Wipeout(csp.doms[y], csp.live[y], csp.asg[y])
    {
      HealthyNotWiped(csp.doms, asg, live0, csp.live, y);
    }
    return true, pruned;
  }

  /**
   * One popped constraint `c` (propagators.py:139-170): each variable of its
   * scope is scanned in turn, each scan followed by the wipeout test.
   * `clean` says nothing was pruned; otherwise some live pair is gone.
   */
  method ReviseConstraint(csp: Csp, c: nat, queue: seq<nat>, pruned: seq<Pruning>,
                          ghost live0: seq<set<int>>, ghost startAC: bool)
    returns (wiped: bool, queue': seq<nat>, pruned': seq<Pruning>, ghost clean: bool)
    requires csp.Valid() && c < |csp.cons| && |live0| == |csp.live|
    requires QueueOk(queue, |csp.cons|) && c !in queue
    requires GacSound(csp.cons, csp.asg, live0, csp.live, pruned)
    requires Healthy(csp.asg, live0, csp.live)
    requires startAC ==> Settled(csp.cons, csp.asg, csp.live, queue + [c])
    modifies csp
    ensures csp.Valid()
    ensures csp.doms == old(csp.doms) && csp.asg == old(csp.asg) && csp.cons == old(csp.cons)
    ensures QueueOk(queue', |csp.cons|)
    ensures GacSound(csp.cons, csp.asg, live0, csp.live, pruned')
    ensures !wiped ==> Healthy(csp.asg, live0, csp.live)
    ensures !wiped && startAC ==> Settled(csp.cons, csp.asg, csp.live, queue')
    ensures wiped ==> exists x :: 0 <= x < |csp.doms| && Wipeout(csp.doms[x], csp.live[x], csp.asg[x])
    ensures clean ==> csp.live == old(csp.live) && queue' == queue
    ensures !clean ==> LivePairs(csp.live) < LivePairs(old(csp.live))
  {
    var scope := csp.cons[c].scope;
    var current: nat := c;
    queue', pruned', clean := queue, pruned, true;
    ghost var live1 := csp.live;
    var p := 0;
    while p < |scope|
      invariant 0 <= p <= |scope|
      invariant csp.Valid() && csp.doms == old(csp.doms) && csp.asg == old(csp.asg) && csp.cons == old(csp.cons)
      invariant current < |csp.cons|
      invariant QueueOk(queue', |csp.cons|)
      invariant GacSound(csp.cons, csp.asg, live0, csp.live, pruned')
      invariant Healthy(csp.asg, live0, csp.live)
      invariant startAC ==> Settled(csp.cons, csp.asg, csp.live, queue' + [c])
      invariant clean ==> csp.live == live1 && queue' == queue && current == c
      invariant clean ==> ScannedUpTo(csp.cons[c], csp.Cur(), p)
      invariant !clean ==> c in queue' && LivePairs(csp.live) < LivePairs(live1)
    {
      var x := scope[p];
      ghost var before := csp.live;
      ghost var cleanBefore := clean;
      queue', current, pruned', clean := ReviseVariable(csp, c, x, current, queue', pruned', live0, startAC, clean);
      CurSizeZeroAny(csp, x);
      if csp.CurSize(x) == 0 || (csp.asg[x].Some? && csp.asg[x].value !in csp.live[x]) {
        return true, queue', pruned', clean;
      }
      AfterScan(csp.asg, live0, before, csp.live, x);
      if clean {
        ScannedNext(csp.cons[c], csp.Cur(), p);
      }
      p := p + 1;
    }
    wiped := false;
    if startAC {
      if clean {
        assert ArcConsistent(csp.cons[c], csp.Cur());
      }
      SettledDrop(csp.cons, csp.asg, csp.live, queue', c);
    }
  }

  /** One more scanned position, when its values all have support. */
  lemma ScannedNext(c: Constraint, cur: seq<set<int>>, p: nat)
    requires ScopeWithin(c.scope, |cur|) && p < |c.scope|
    requires ScannedUpTo(c, cur, p)
    requires forall w :: w in cur[c.scope[p]] ==> Supported(c, c.scope[p], w, cur)
    ensures ScannedUpTo(c, cur, p + 1)
  {
  }

  /** A variable that passes the wipeout test leaves the state healthy. */
  lemma AfterScan(asg: seq<Option<int>>, live0: seq<set<int>>, before: seq<set<int>>,
                  after: seq<set<int>>, x: VarId)
    requires |live0| == |asg| && |before| == |asg| && |after| == |asg| && x < |asg|
    requires Healthy(asg, live0, before) && after == before[x := after[x]]
    requires after[x] != {} && (asg[x].Some? ==> asg[x].value in after[x])
    ensures Healthy(asg, live0, after)
  {
  }

  /**
   * The scan of one variable `x` of the popped constraint `c`
   * (propagators.py:141-165) over a snapshot of its current domain. Values
   * without support in the constraint `current` (the popped one until the
   * first prune rebinds the name) are pruned, logged, and the constraints on
   * `x` queued. `clean'` says nothing was pruned in this scan or before it.
   */
  method ReviseVariable(csp: Csp, c: nat, x: VarId, current: nat, queue: seq<nat>, pruned: seq<Pruning>,
                        ghost live0: seq<set<int>>, ghost startAC: bool, ghost clean: bool)
    returns (queue': seq<nat>, current': nat, pruned': seq<Pruning>, ghost clean': bool)
    requires csp.Valid() && c < |csp.cons| && current < |csp.cons| && x < |csp.doms| && x in csp.cons[c].scope
    requires |live0| == |csp.live| && AssignedLive(csp.asg, csp.live)
    requires QueueOk(queue, |csp.cons|)
    requires GacSound(csp.cons, csp.asg, live0, csp.live, pruned)
    requires startAC ==> Settled(csp.cons, csp.asg, csp.live, queue + [c])
    requires clean ==> current == c
    requires !clean ==> c in queue
    modifies csp
    ensures csp.Valid()
    ensures csp.doms == old(csp.doms) && csp.asg == old(csp.asg) && csp.cons == old(csp.cons)
    ensures current' < |csp.cons|
    ensures csp.live == old(csp.live)[x := csp.live[x]]
    ensures QueueOk(queue', |csp.cons|)
    ensures GacSound(csp.cons, csp.asg, live0, csp.live, pruned')
    ensures startAC ==> Settled(csp.cons, csp.asg, csp.live, queue' + [c])
    ensures clean' ==> clean && csp.live == old(csp.live) && queue' == queue && current' == current
    ensures clean' ==> forall w :: w in csp.Cur()[x] ==> Supported(csp.cons[c], x, w, csp.Cur())
    ensures !clean' ==> c in queue'
    ensures LivePairs(csp.live) <= LivePairs(old(csp.live))
    ensures clean && !clean' ==> LivePairs(csp.live) < LivePairs(old(csp.live))
  {
    var vals := csp.CurDomain(x);
    assert forall t :: 0 <= t < |vals| ==> vals[t] in csp.live[x];
    queue', current', pruned', clean' := queue, current, pruned, clean;
    ghost var live1, cur1 := csp.live, csp.Cur();
    var j := 0;
    while j < |vals|
      invariant 0 <= j <= |vals|
      invariant csp.Valid() && csp.doms == old(csp.doms) && csp.asg == old(csp.asg) && csp.cons == old(csp.cons)
      invariant current' < |csp.cons|
      invariant csp.live == live1[x := csp.live[x]]
      invariant forall t :: j <= t < |vals| ==> vals[t] in csp.live[x]
      invariant QueueOk(queue', |csp.cons|)
      invariant GacSound(csp.cons, csp.asg, live0, csp.live, pruned')
      invariant startAC ==> Settled(csp.cons, csp.asg, csp.live, queue' + [c])
      invariant clean' ==> clean && csp.live == live1 && queue' == queue && current' == current
      invariant clean' ==> forall t :: 0 <= t < j ==> Supported(csp.cons[c], x, vals[t], csp.Cur())
      invariant !clean' ==> c in queue'
      invariant LivePairs(csp.live) <= LivePairs(live1)
      invariant clean && !clean' ==> LivePairs(csp.live) < LivePairs(live1)
    {
      queue', current', pruned', clean' :=
        TestValue(csp, c, x, vals, j, current', queue', pruned', live0, live1, startAC, clean, clean');
      j := j + 1;
    }
    if clean' {
      assert csp.Cur() == cur1;
      forall w | w in csp.Cur()[x] ensures Supported(csp.cons[c], x, w, csp.Cur()) {
        var t :| 0 <= t < |vals| && vals[t] == w;
      }
    }
  }

  /**
   * One value `vals[j]` of the scan (propagators.py:143-165): if it has no
   * support in `current`, prune and log it and queue again every constraint
   * on `x` that is not queued, leaving `current` bound to the last of them.
   */
  method TestValue(csp: Csp, c: nat, x: VarId, vals: seq<int>, j: nat, current: nat, queue: seq<nat>,
                   pruned: seq<Pruning>, ghost live0: seq<set<int>>, ghost live1: seq<set<int>>,
                   ghost startAC: bool, ghost clean: bool, ghost cleanNow: bool)
    returns (queue': seq<nat>, current': nat, pruned': seq<Pruning>, ghost clean': bool)
    requires csp.Valid() && c < |csp.cons| && current < |csp.cons| && x < |csp.doms| && x in csp.cons[c].scope
    requires |live0| == |csp.live| && |live1| == |csp.live|
    requires j < |vals| && Distinct(vals)
    requires csp.live == live1[x := csp.live[x]]
    requires forall t :: j <= t < |vals| ==> vals[t] in csp.live[x]
    requires QueueOk(queue, |csp.cons|)
    requires GacSound(csp.cons, csp.asg, live0, csp.live, pruned)
    requires startAC ==> Settled(csp.cons, csp.asg, csp.live, queue + [c])
    requires cleanNow ==> clean && csp.live == live1 && current == c
    requires cleanNow ==> forall t :: 0 <= t < j ==> Supported(csp.cons[c], x, vals[t], csp.Cur())
    requires !cleanNow ==> c in queue
    requires LivePairs(csp.live) <= LivePairs(live1)
    requires clean && !cleanNow ==> LivePairs(csp.live) < LivePairs(live1)
    modifies csp
    ensures csp.Valid()
    ensures csp.doms == old(csp.doms) && csp.asg == old(csp.asg) && csp.cons == old(csp.cons)
    ensures current' < |csp.cons|
    ensures csp.live == live1[x := csp.live[x]]
    ensures forall t :: j + 1 <= t < |vals| ==> vals[t] in csp.live[x]
    ensures QueueOk(queue', |csp.cons|)
    ensures GacSound(csp.cons, csp.asg, live0, csp.live, pruned')
    ensures startAC ==> Settled(csp.cons, csp.asg, csp.live, queue' + [c])
    ensures clean' ==> cleanNow && csp.live == old(csp.live) && queue' == queue && current' == current
    ensures clean' ==> forall t :: 0 <= t < j + 1 ==> Supported(csp.cons[c], x, vals[t], csp.Cur())
    ensures !clean' ==> c in queue'
    ensures LivePairs(csp.live) <= LivePairs(live1)
    ensures clean && !clean' ==> LivePairs(csp.live) < LivePairs(live1)
  {
    var v := vals[j];
    if !Supported(csp.cons[current], x, v, csp.Cur()) {
      ghost var before := csp.live;
      queue', current', pruned' := PruneUnsupported(csp, c, x, v, current, queue, pruned, live0, startAC);
      PruneKeepsScan(live1, before, csp.live, x, vals, j);
      clean' := false;
    } else {
      queue', current', pruned', clean' := queue, current, pruned, cleanNow;
    }
  }

  /** The pruning branch of propagators.py:146-165. */
  method PruneUnsupported(csp: Csp, c: nat, x: VarId, v: int, current: nat, queue: seq<nat>,
                          pruned: seq<Pruning>, ghost live0: seq<set<int>>, ghost startAC: bool)
    returns (queue': seq<nat>, current': nat, pruned': seq<Pruning>)
    requires csp.Valid() && c < |csp.cons| && current < |csp.cons| && x < |csp.doms| && x in csp.cons[c].scope
    requires |live0| == |csp.live| && v in csp.live[x]
    requires !Supported(csp.cons[current], x, v, csp.Cur())
    requires QueueOk(queue, |csp.cons|)
    requires GacSound(csp.cons, csp.asg, live0, csp.live, pruned)
    requires startAC ==> Settled(csp.cons, csp.asg, csp.live, queue + [c])
    modifies csp
    ensures csp.Valid()
    ensures csp.doms == old(csp.doms) && csp.asg == old(csp.asg) && csp.cons == old(csp.cons)
    ensures csp.live == old(csp.live)[x := old(csp.live)[x] - {v}]
    ensures current' < |csp.cons|
    ensures pruned' == pruned + [Pruning(x, v)]
    ensures queue' == Enqueue(queue, csp.ConsWithVar(x))
    ensures current' == LastOr(csp.ConsWithVar(x), current)
    ensures QueueOk(queue', |csp.cons|) && c in queue'
    ensures GacSound(csp.cons, csp.asg, live0, csp.live, pruned')
    ensures startAC ==> Settled(csp.cons, csp.asg, csp.live, queue' + [c])
    ensures LivePairs(csp.live) < LivePairs(old(csp.live))
  {
    ghost var before := csp.live;
    GacPruneKeepsSolutions(csp.cons, csp.asg, live0, csp.live, current, x, v);
    GacRefutesExtend(csp.cons, csp.asg, live0, csp.live, pruned, current, x, v);
    pruned' := PruneAndLog(csp, x, v, pruned, live0);
    queue', current' := Requeue(csp, queue, x, current);
    if startAC {
      SettledAfterPrune(csp.cons, csp.asg, before, x, v, queue + [c], queue' + [c]);
    }
  }

  /**
   * Pruning `vals[j]` from `x` changes only `x`, keeps the values still to
   * be scanned, and does not grow the live pairs.
   */
  lemma PruneKeepsScan(live1: seq<set<int>>, before: seq<set<int>>, after: seq<set<int>>,
                       x: VarId, vals: seq<int>, j: nat)
    requires x < |live1| && |before| == |live1| && before == live1[x := before[x]] && j < |vals| && Distinct(vals)
    requires after == before[x := before[x] - {vals[j]}]
    requires forall t :: j <= t < |vals| ==> vals[t] in before[x]
    requires LivePairs(before) <= LivePairs(live1)
    ensures after == live1[x := after[x]]
    ensures forall t :: j + 1 <= t < |vals| ==> vals[t] in after[x]
    ensures LivePairs(after) <= LivePairs(live1)
  {
    assert forall t :: j + 1 <= t < |vals| ==> vals[t] != vals[j];
    LivePairsShrink(after, before);
  }

  /** Appending a constraint not yet pending keeps the queue well formed and its prefix. */
  lemma QueueAppend(q: seq<nat>, n: nat, c: nat, len: nat)
    requires QueueOk(q, n) && c < n && c !in q && len <= |q|
    ensures QueueOk(q + [c], n) && (q + [c])[..len] == q[..len]
  {
  }

  /** The queue after appending, in order, each of `cs` that is not already pending. */
  function Enqueue(queue: seq<nat>, cs: seq<nat>): seq<nat>
    decreases |cs|
  {
    if cs == [] then queue
    else Enqueue(if cs[0] in queue then queue else queue + [cs[0]], cs[1..])
  }

  /** Enqueueing keeps the queue free of repeats and within the constraint list. */
  lemma {:induction false} EnqueueKeepsOk(queue: seq<nat>, cs: seq<nat>, n: nat)
    requires QueueOk(queue, n) && forall i :: 0 <= i < |cs| ==> cs[i] < n
    ensures QueueOk(Enqueue(queue, cs), n)
    decreases |cs|
  {
    if cs != [] {
      if cs[0] !in queue {
        QueueAppend(queue, n, cs[0], |queue|);
      }
      EnqueueKeepsOk(if cs[0] in queue then queue else queue + [cs[0]], cs[1..], n);
    }
  }

  /** Enqueueing only appends: what was pending stays in front, in order. */
  lemma {:induction false} EnqueueKeepsFront(queue: seq<nat>, cs: seq<nat>)
    ensures |Enqueue(queue, cs)| >= |queue| && Enqueue(queue, cs)[..|queue|] == queue
    decreases |cs|
  {
    if cs != [] {
      var q := if cs[0] in queue then queue else queue + [cs[0]];
      EnqueueKeepsFront(q, cs[1..]);
      var r := Enqueue(q, cs[1..]);
      assert r[..|queue|] == r[..|q|][..|queue|];
    }
  }

  /** After enqueueing, exactly what was pending or enqueued is pending. */
  lemma {:induction false} EnqueueMembers(queue: seq<nat>, cs: seq<nat>)
    ensures forall k :: k in Enqueue(queue, cs) <==> k in queue || k in cs
    decreases |cs|
  {
    if cs != [] {
      var q := if cs[0] in queue then queue else queue + [cs[0]];
      EnqueueMembers(q, cs[1..]);
      forall k ensures k in cs <==> k == cs[0] || k in cs[1..] {
        if k in cs {
          var j :| 0 <= j < |cs| && cs[j] == k;
          if j > 0 {
            assert cs[1..][j - 1] == k;
          }
        }
      }
    }
  }

  /**
   * The re-queue loop at propagators.py:161-165 over the constraints `cs`:
   * each one not yet queued is appended, in order; the loop variable
   * rebinds the name `constraint`, which ends bound to the last of `cs`.
   */
  /** The value a `for` loop variable is left with: the last of `cs`, or `d` when `cs` is empty. */
  function LastOr(cs: seq<nat>, d: nat): nat {
    if cs == [] then d else cs[|cs| - 1]
  }

  method AppendMissing(queue: seq<nat>, cs: seq<nat>, current: nat) returns (queue': seq<nat>, current': nat)
    ensures queue' == Enqueue(queue, cs)
    ensures current' == LastOr(cs, current)
  {
    queue', current' := queue, current;
    var i := 0;
    while i < |cs|
      invariant 0 <= i <= |cs|
      invariant Enqueue(queue', cs[i..]) == Enqueue(queue, cs)
      invariant current' == if i == 0 then current else cs[i - 1]
    {
      assert cs[i..][1..] == cs[i + 1..];
      if cs[i] !in queue' {
        queue' := queue' + [cs[i]];
      }
      current' := cs[i];
      i := i + 1;
    }
    assert cs[i..] == [];
  }

  /** The re-queue step of PropGAC: the constraints on `x`, from get_cons_with_var, go through AppendMissing. */
  method Requeue(csp: Csp, queue: seq<nat>, x: VarId, current: nat) returns (queue': seq<nat>, current': nat)
    requires QueueOk(queue, |csp.cons|) && current < |csp.cons|
    ensures queue' == Enqueue(queue, csp.ConsWithVar(x))
    ensures QueueOk(queue', |csp.cons|)
    ensures |queue'| >= |queue| && queue'[..|queue|] == queue
    ensures forall k: nat :: k in queue' <==> k in queue || (k < |csp.cons| && x in csp.cons[k].scope)
    ensures current' < |csp.cons|
    ensures current' == LastOr(csp.ConsWithVar(x), current)
  {
    var cs := csp.ConsWithVar(x);
    queue', current' := AppendMissing(queue, cs, current);
    EnqueueKeepsOk(queue, cs, |csp.cons|);
    EnqueueKeepsFront(queue, cs);
    EnqueueMembers(queue, cs);
  }

  // ---------------------------------------------------------------------------
  // ord_mrv (propagators.py:178-183)
  // ---------------------------------------------------------------------------

  /**
   * The position `min` picks: the first entry no larger than any other
   * (later entries replace the running minimum only when strictly smaller).
   */
  function FirstMin(sizes: seq<nat>): (k: nat)
    requires |sizes| > 0
    ensures k < |sizes|
    ensures forall j :: 0 <= j < |sizes| ==> sizes[k] <= sizes[j]
    ensures forall j :: 0 <= j < k ==> sizes[j] > sizes[k]
  {
    if |sizes| == 1 then 0
    else
      var k := FirstMin(sizes[1..]) + 1;
      if sizes[k] < sizes[0] then k else 0
  }

  /** The list of (variable, cur_domain_size()) pairs that `min` ranges over, sizes only. */
  function Sizes(csp: Csp, us: seq<VarId>): (s: seq<nat>)
    reads csp
    requires csp.Valid() && forall i :: 0 <= i < |us| ==> us[i] < |csp.doms|
    ensures |s| == |us| && forall i :: 0 <= i < |us| ==> s[i] == csp.CurSize(us[i])
  {
    if us == [] then [] else [csp.CurSize(us[0])] + Sizes(csp, us[1..])
  }

  /**
   * Minimum remaining values: the unassigned variable with the smallest
   * current domain, the first such in registration order; `None` where the
   * source's `min` of an empty list raises.
   */
  function OrdMrv(csp: Csp): (r: Option<VarId>)
    reads csp
    requires csp.Valid()
    ensures r.None? <==> forall y :: 0 <= y < |csp.asg| ==> csp.asg[y].Some?
    ensures r.Some? ==> r.value < |csp.doms| && csp.asg[r.value].None?
  {
    var us := csp.UnassignedVars();
    if us == [] then
      assert forall y :: 0 <= y < |csp.asg| && csp.asg[y].None? ==> y in us;
      None
    else
      Some(us[FirstMin(Sizes(csp, us))])
  }

  /**
   * The variable OrdMrv picks has a current domain no larger than any other
   * unassigned variable's, and strictly smaller than those registered before it.
   */
  lemma OrdMrvIsMinimal(csp: Csp)
    requires csp.Valid() && OrdMrv(csp).Some?
    ensures forall y :: 0 <= y < |csp.doms| && csp.asg[y].None? ==>
      csp.CurSize(OrdMrv(csp).value) <= csp.CurSize(y)
    ensures forall y :: 0 <= y < OrdMrv(csp).value && csp.asg[y].None? ==>
      csp.CurSize(y) > csp.CurSize(OrdMrv(csp).value)
  {
    var us := csp.UnassignedVars();
    var k := FirstMin(Sizes(csp, us));
    FirstMinIsMinimalVariable(csp, us, k, us[k]);
  }


  /** The position chosen among the unassigned variables translates to variable ids. */
  lemma FirstMinIsMinimalVariable(csp: Csp, us: seq<VarId>, k: nat, v: VarId)
    requires csp.Valid() && us == csp.UnassignedVars() && us != []
    requires k == FirstMin(Sizes(csp, us)) && v == us[k]
    ensures v < |csp.doms| && csp.asg[v].None?
    ensures forall y :: 0 <= y < |csp.doms| && csp.asg[y].None? ==> csp.CurSize(v) <= csp.CurSize(y)
    ensures forall y :: 0 <= y < v && csp.asg[y].None? ==> csp.CurSize(y) > csp.CurSize(v)
  {
    var sizes := Sizes(csp, us);
    forall y | 0 <= y < |csp.doms| && csp.asg[y].None?
      ensures csp.CurSize(v) <= csp.CurSize(y)
      ensures y < v ==> csp.CurSize(y) > csp.CurSize(v)
    {
      assert y in us;
      var i :| 0 <= i < |us| && us[i] == y;
      assert sizes[k] <= sizes[i];
      if y < v {
        IncreasingOrder(us, i, k);
      }
    }
  }


  /** In an increasing list, a smaller entry comes earlier. */
  lemma IncreasingOrder(us: seq<nat>, i: nat, k: nat)
    requires Increasing(us) && i < |us| && k < |us| && us[i] < us[k]
    ensures i < k
  {
  }
}
