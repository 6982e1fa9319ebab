/**
 * The collaborator interface the propagators and the puzzle builders rely on:
 * variables with a fixed domain, a set of values still not pruned and an
 * optional assigned value; constraints given by a scope and an explicit set of
 * satisfying tuples; and the CSP registry that owns both.
 *
 * A variable is identified by its position in the registry (variable names are
 * taken to be unique, so name, identity and position coincide). All mutable
 * per-variable state is held by the CSP object, indexed by that position.
 */
module CspBase {

  datatype Option<T> = None | Some(value: T)

  /** A variable, identified by its index in the CSP's registry. */
  type VarId = nat

  /** A variable as a model builder creates it, before it is registered. */
  datatype VarInfo = VarInfo(dom: seq<int>, assignment: Option<int>)

  /** A constraint: an ordered scope and the positional tuples that satisfy it. */
  datatype Constraint = Constraint(scope: seq<VarId>, sat: set<seq<int>>)

  /** One entry of a propagator's undo log: `value` was removed from `variable`. */
  datatype Pruning = Pruning(variable: VarId, value: int)

  function Elems(s: seq<int>): set<int> {
    set v | v in s
  }

  predicate Distinct(s: seq<int>) {
    forall i, j :: 0 <= i < j < |s| ==> s[i] != s[j]
  }

  predicate Increasing(s: seq<nat>) {
    forall i, j :: 0 <= i < j < |s| ==> s[i] < s[j]
  }

  /** The values of `d`, in order, that are still in `keep`. */
  function Filter(d: seq<int>, keep: set<int>): (r: seq<int>)
    ensures forall v :: v in r <==> v in d && v in keep
    ensures Distinct(d) ==> Distinct(r)
    ensures |r| <= |d|
  {
    if d == [] then []
    else if d[0] in keep then
      assert Distinct(d) ==> d[0] !in d[1..];
      [d[0]] + Filter(d[1..], keep)
    else Filter(d[1..], keep)
  }

  lemma {:induction false} FilterEmpty(d: seq<int>, keep: set<int>)
    ensures |Filter(d, keep)| == 0 <==> Elems(d) * keep == {}
  {
    if |Filter(d, keep)| != 0 {
      var v := Filter(d, keep)[0];
      assert v in Elems(d) * keep;
    }
  }

  /** check(vals): the positional tuple is one of the satisfying tuples. */
  predicate Check(c: Constraint, t: seq<int>) {
    t in c.sat
  }

  predicate ScopeWithin(scope: seq<VarId>, n: nat) {
    forall i :: 0 <= i < |scope| ==> scope[i] < n
  }

  /** Every constraint mentions only variables below `n`. */
  predicate ConsWithin(cons: seq<Constraint>, n: nat) {
    forall k :: 0 <= k < |cons| ==> ScopeWithin(cons[k].scope, n)
  }

  /**
   * The current domain of every variable, as a set: an assigned variable's is
   * its assigned value whatever has been pruned, an unassigned variable's is
   * the values not pruned.
   */
  function CurView(asg: seq<Option<int>>, live: seq<set<int>>): (cur: seq<set<int>>)
    requires |asg| == |live|
    ensures |cur| == |asg|
  {
    seq(|asg|, x requires 0 <= x < |asg| => if asg[x].Some? then {asg[x].value} else live[x])
  }

  /** cur_domain() of one variable, in domain order. */
  function CurDomainOf(dom: seq<int>, live: set<int>, a: Option<int>): seq<int> {
    if a.Some? then [a.value] else Filter(dom, live)
  }

  /** The indices, in order, of the constraints whose scope mentions `x`. */
  function IndicesOn(cons: seq<Constraint>, x: VarId): (cs: seq<nat>)
    ensures forall k: nat :: k in cs <==> k < |cons| && x in cons[k].scope
    ensures forall i :: 0 <= i < |cs| ==> cs[i] < |cons| && x in cons[cs[i]].scope
    ensures Increasing(cs)
  {
    if cons == [] then []
    else
      var n := |cons| - 1;
      assert forall k :: 0 <= k < n ==> cons[..n][k] == cons[k];
      var rest := IndicesOn(cons[..n], x);
      assert forall i :: 0 <= i < |rest| ==> rest[i] in rest;
      rest + (if x in cons[n].scope then [n] else [])
  }

  /** 0, 1, ..., n - 1 */
  function Upto(n: nat): (r: seq<nat>)
    ensures forall k: nat :: k in r <==> k < n
    ensures forall i :: 0 <= i < |r| ==> r[i] < n
    ensures Increasing(r)
  {
    if n == 0 then []
    else
      var rest := Upto(n - 1);
      assert forall i :: 0 <= i < |rest| ==> rest[i] in rest;
      rest + [n - 1]
  }

  /** The unassigned variables, in registration order. */
  function UnassignedOf(asg: seq<Option<int>>): (us: seq<VarId>)
    ensures forall x: nat :: x in us <==> x < |asg| && asg[x].None?
    ensures forall i :: 0 <= i < |us| ==> us[i] < |asg| && asg[us[i]].None?
    ensures Increasing(us)
  {
    if asg == [] then []
    else
      var n := |asg| - 1;
      assert forall x :: 0 <= x < n ==> asg[..n][x] == asg[x];
      var rest := UnassignedOf(asg[..n]);
      assert forall i :: 0 <= i < |rest| ==> rest[i] in rest;
      rest + (if asg[n].None? then [n] else [])
  }

  /** get_unasgn_vars(): the scope entries whose variable is unassigned, in scope order. */
  function UnassignedIn(asg: seq<Option<int>>, scope: seq<VarId>): (us: seq<VarId>)
    requires ScopeWithin(scope, |asg|)
    ensures forall x :: x in us <==> x in scope && asg[x].None?
    ensures forall i :: 0 <= i < |us| ==> us[i] in scope && us[i] < |asg| && asg[us[i]].None?
  {
    if scope == [] then []
    else (if asg[scope[0]].None? then [scope[0]] else []) + UnassignedIn(asg, scope[1..])
  }

  /**
   * A scope with exactly one unassigned entry has it at a single position `p`;
   * every other entry is an assigned variable, so it differs from the
   * unassigned one.
   */
  lemma {:induction false} SingleUnassigned(asg: seq<Option<int>>, scope: seq<VarId>) returns (p: nat)
    requires ScopeWithin(scope, |asg|)
    requires |UnassignedIn(asg, scope)| == 1
    ensures p < |scope| && scope[p] == UnassignedIn(asg, scope)[0]
    ensures forall i :: 0 <= i < |scope| && i != p ==> asg[scope[i]].Some?
  {
    if asg[scope[0]].None? {
      p := 0;
      assert UnassignedIn(asg, scope[1..]) == [];
      forall i | 0 < i < |scope| ensures asg[scope[i]].Some? {
        assert scope[i] == scope[1..][i - 1];
      }
    } else {
      var q := SingleUnassigned(asg, scope[1..]);
      p := q + 1;
      forall i | 0 <= i < |scope| && i != p ensures asg[scope[i]].Some? {
        if i > 0 {
          assert scope[i] == scope[1..][i - 1];
        }
      }
    }
  }

  // ---------------------------------------------------------------------------
  // Support (propagators.py:148-156)
  // ---------------------------------------------------------------------------

  /**
   * `t` is one of the combinations enumerated when testing value `v` of `x`:
   * `v` at every position where `x` sits, a current-domain value elsewhere.
   */
  predicate Fits(t: seq<int>, scope: seq<VarId>, x: VarId, v: int, cur: seq<set<int>>)
    requires ScopeWithin(scope, |cur|)
  {
    |t| == |scope| &&
    forall i :: 0 <= i < |scope| ==> if scope[i] == x then t[i] == v else t[i] in cur[scope[i]]
  }

  /** Some combination of the product passes `check`. */
  predicate Supported(c: Constraint, x: VarId, v: int, cur: seq<set<int>>)
    requires ScopeWithin(c.scope, |cur|)
  {
    exists t :: t in c.sat && Fits(t, c.scope, x, v, cur)
  }

  /** Every value of every scope variable has support: the GAC fixed point for `c`. */
  predicate ArcConsistent(c: Constraint, cur: seq<set<int>>)
    requires ScopeWithin(c.scope, |cur|)
  {
    forall i, w :: 0 <= i < |c.scope| && w in cur[c.scope[i]] ==> Supported(c, c.scope[i], w, cur)
  }

  /** Pointwise inclusion of current domains. */
  ghost predicate Shrunk(small: seq<set<int>>, big: seq<set<int>>) {
    |small| == |big| && forall x :: 0 <= x < |small| ==> small[x] <= big[x]
  }

  /** Shrinking domains can only take support away. */
  lemma SupportedMonotone(c: Constraint, x: VarId, v: int, small: seq<set<int>>, big: seq<set<int>>)
    requires Shrunk(small, big) && ScopeWithin(c.scope, |small|)
    requires Supported(c, x, v, small)
    ensures Supported(c, x, v, big)
  {
    var t :| t in c.sat && Fits(t, c.scope, x, v, small);
    assert Fits(t, c.scope, x, v, big);
  }

  /** Support depends only on the domains of the scope's variables. */
  lemma SupportedFrame(c: Constraint, x: VarId, v: int, cur: seq<set<int>>, cur': seq<set<int>>)
    requires |cur| == |cur'| && ScopeWithin(c.scope, |cur|)
    requires forall i :: 0 <= i < |c.scope| ==> cur[c.scope[i]] == cur'[c.scope[i]]
    ensures Supported(c, x, v, cur) <==> Supported(c, x, v, cur')
  {
    if Supported(c, x, v, cur) {
      var t :| t in c.sat && Fits(t, c.scope, x, v, cur);
      assert Fits(t, c.scope, x, v, cur');
    }
    if Supported(c, x, v, cur') {
      var t :| t in c.sat && Fits(t, c.scope, x, v, cur');
      assert Fits(t, c.scope, x, v, cur);
    }
  }

  /** Arc consistency of `c` survives a change to domains outside its scope. */
  lemma ArcConsistentFrame(c: Constraint, cur: seq<set<int>>, cur': seq<set<int>>)
    requires |cur| == |cur'| && ScopeWithin(c.scope, |cur|)
    requires forall i :: 0 <= i < |c.scope| ==> cur[c.scope[i]] == cur'[c.scope[i]]
    requires ArcConsistent(c, cur)
    ensures ArcConsistent(c, cur')
  {
    forall i, w | 0 <= i < |c.scope| && w in cur'[c.scope[i]]
      ensures Supported(c, c.scope[i], w, cur')
    {
      SupportedFrame(c, c.scope[i], w, cur, cur');
    }
  }

  // ---------------------------------------------------------------------------
  // Solutions
  // ---------------------------------------------------------------------------

  /** The values a full assignment gives to a scope, in scope order. */
  function Project(s: seq<int>, scope: seq<VarId>): (t: seq<int>)
    requires ScopeWithin(scope, |s|)
    ensures |t| == |scope| && forall i :: 0 <= i < |scope| ==> t[i] == s[scope[i]]
  {
    seq(|scope|, i requires 0 <= i < |scope| => s[scope[i]])
  }

  /** A full assignment that satisfies every constraint. */
  ghost predicate IsSolution(cons: seq<Constraint>, s: seq<int>) {
    forall k :: 0 <= k < |cons| ==> ScopeWithin(cons[k].scope, |s|) && Check(cons[k], Project(s, cons[k].scope))
  }

  /** Every variable's value lies in its current domain. */
  ghost predicate Within(s: seq<int>, cur: seq<set<int>>) {
    |s| == |cur| && forall x :: 0 <= x < |s| ==> s[x] in cur[x]
  }

  /** Every solution within the domains `before` (under assignment `asg`) is within `after`. */
  ghost predicate KeepsSolutions(cons: seq<Constraint>, asg: seq<Option<int>>,
                                 before: seq<set<int>>, after: seq<set<int>>)
    requires |before| == |asg| && |after| == |asg|
  {
    forall s :: IsSolution(cons, s) && Within(s, CurView(asg, before)) ==> Within(s, CurView(asg, after))
  }

  lemma KeepsSolutionsTrans(cons: seq<Constraint>, asg: seq<Option<int>>,
                            a: seq<set<int>>, b: seq<set<int>>, c: seq<set<int>>)
    requires |a| == |asg| && |b| == |asg| && |c| == |asg|
    requires KeepsSolutions(cons, asg, a, b) && KeepsSolutions(cons, asg, b, c)
    ensures KeepsSolutions(cons, asg, a, c)
  {
  }

  /**
   * A value without support in a constraint of the problem occurs in no
   * solution that lies within the current domains (whether or not the tested
   * variable is in that constraint's scope). So pruning it loses no solution.
   */
  lemma {:induction false} UnsupportedExcludesSolutions(cons: seq<Constraint>, k: nat, x: VarId, v: int,
                                                        cur: seq<set<int>>, s: seq<int>)
    requires k < |cons| && ScopeWithin(cons[k].scope, |cur|)
    requires !Supported(cons[k], x, v, cur)
    requires IsSolution(cons, s) && Within(s, cur)
    ensures x < |s| ==> s[x] != v
  {
    var t := Project(s, cons[k].scope);
    assert Check(cons[k], t);
  }

  // ---------------------------------------------------------------------------
  // The undo log (propagators.py:24-35)
  // ---------------------------------------------------------------------------

  /** Put one pruned value back, as the search driver does on backtracking. */
  function Unprune(live: seq<set<int>>, p: Pruning): seq<set<int>> {
    if p.variable < |live| then live[p.variable := live[p.variable] + {p.value}] else live
  }

  /** Put every logged value back, first entry first. */
  function Restore(live: seq<set<int>>, log: seq<Pruning>): seq<set<int>>
    decreases |log|
  {
    if log == [] then live else Restore(Unprune(live, log[0]), log[1..])
  }

  /**
   * `log` describes exactly how `before` became `after`: each entry names a
   * value that was present and is now gone, no entry appears twice, nothing
   * grew, and every value that disappeared has an entry.
   */
  ghost predicate ExactUndoLog(before: seq<set<int>>, after: seq<set<int>>, log: seq<Pruning>) {
    |before| == |after| &&
    (forall i :: 0 <= i < |log| ==>
       log[i].variable < |before| && log[i].value in before[log[i].variable] &&
       log[i].value !in after[log[i].variable]) &&
    (forall i, j :: 0 <= i < j < |log| ==> log[i] != log[j]) &&
    (forall x :: 0 <= x < |before| ==> after[x] <= before[x]) &&
    (forall x, v :: 0 <= x < |before| && v in before[x] && v !in after[x] ==> Pruning(x, v) in log)
  }

  lemma ExactUndoLogEmpty(live: seq<set<int>>)
    ensures ExactUndoLog(live, live, [])
  {
  }

  /** Removing a value that is still present, and logging it, keeps the log exact. */
  lemma ExactUndoLogExtend(before: seq<set<int>>, after: seq<set<int>>, log: seq<Pruning>, x: VarId, v: int)
    requires ExactUndoLog(before, after, log)
    requires x < |after| && v in after[x]
    ensures ExactUndoLog(before, after[x := after[x] - {v}], log + [Pruning(x, v)])
  {
    var after' := after[x := after[x] - {v}];
    var log' := log + [Pruning(x, v)];
    forall i | 0 <= i < |log'|
      ensures log'[i].variable < |before| && log'[i].value in before[log'[i].variable]
      ensures log'[i].value !in after'[log'[i].variable]
    {
      if i < |log| {
        assert log'[i] == log[i];
      }
    }
    forall i, j | 0 <= i < j < |log'| ensures log'[i] != log'[j] {
      if j == |log| {
        assert log'[i] == log[i];
        assert log[i].value !in after[log[i].variable];
      }
    }
    forall y, w | 0 <= y < |before| && w in before[y] && w !in after'[y] ensures Pruning(y, w) in log' {
      if y == x && w == v {
        assert log'[|log|] == Pruning(x, v);
      } else {
        assert Pruning(y, w) in log;
      }
    }
  }

  /** Two exact logs in a row make one exact log. */
  lemma ExactUndoLogConcat(a: seq<set<int>>, b: seq<set<int>>, c: seq<set<int>>,
                           log1: seq<Pruning>, log2: seq<Pruning>)
    requires ExactUndoLog(a, b, log1) && ExactUndoLog(b, c, log2)
    ensures ExactUndoLog(a, c, log1 + log2)
  {
    var log := log1 + log2;
    forall i | 0 <= i < |log|
      ensures log[i].variable < |a| && log[i].value in a[log[i].variable]
      ensures log[i].value !in c[log[i].variable]
    {
      if i < |log1| {
        assert log[i] == log1[i];
      } else {
        assert log[i] == log2[i - |log1|];
      }
    }
    forall i, j | 0 <= i < j < |log| ensures log[i] != log[j] {
      if j < |log1| {
        assert log[i] == log1[i] && log[j] == log1[j];
      } else if i >= |log1| {
        assert log[i] == log2[i - |log1|] && log[j] == log2[j - |log1|];
      } else {
        assert log[i] == log1[i] && log[j] == log2[j - |log1|];
        assert log[i].value !in b[log[i].variable];
      }
    }
    forall x, v | 0 <= x < |a| && v in a[x] && v !in c[x] ensures Pruning(x, v) in log {
      if v in b[x] {
        assert Pruning(x, v) in log2;
        var j :| 0 <= j < |log2| && log2[j] == Pruning(x, v);
        assert log[|log1| + j] == log2[j];
      } else {
        assert Pruning(x, v) in log1;
        var j :| 0 <= j < |log1| && log1[j] == Pruning(x, v);
        assert log[j] == log1[j];
      }
    }
  }

  /**
   * Prune/restore symmetry: restoring an exact undo log, in log order, brings
   * every current domain back to what it was.
   */
  lemma {:induction false} UndoLogRestores(before: seq<set<int>>, after: seq<set<int>>, log: seq<Pruning>)
    requires ExactUndoLog(before, after, log)
    ensures Restore(after, log) == before
    decreases |log|
  {
    if log == [] {
      forall x | 0 <= x < |before| ensures after[x] == before[x] {
        forall v | v in before[x] ensures v in after[x] {
          assert Pruning(x, v) !in log;
        }
      }
    } else {
      var p := log[0];
      var mid := Unprune(after, p);
      assert mid == after[p.variable := after[p.variable] + {p.value}];
      forall i | 0 <= i < |log[1..]|
        ensures log[1..][i].value !in mid[log[1..][i].variable]
      {
        assert log[1..][i] == log[i + 1] && log[i + 1] != log[0];
      }
      forall x, v | 0 <= x < |before| && v in before[x] && v !in mid[x]
        ensures Pruning(x, v) in log[1..]
      {
        assert Pruning(x, v) in log && Pruning(x, v) != log[0];
        var i :| 0 <= i < |log| && log[i] == Pruning(x, v);
        assert log[1..][i - 1] == log[i];
      }
      forall i, j | 0 <= i < j < |log[1..]| ensures log[1..][i] != log[1..][j] {
        assert log[1..][i] == log[i + 1] && log[1..][j] == log[j + 1];
      }
      assert ExactUndoLog(before, mid, log[1..]);
      UndoLogRestores(before, mid, log[1..]);
    }
  }

  /** The values `log` records for variable `x`. */
  ghost function Logged(log: seq<Pruning>, x: VarId): set<int> {
    set p | p in log && p.variable == x :: p.value
  }

  /** Splitting off the first entry of a log. */
  lemma LoggedFront(log: seq<Pruning>, x: VarId)
    requires log != []
    ensures Logged(log, x) == (if log[0].variable == x then {log[0].value} else {}) + Logged(log[1..], x)
  {
    assert log == [log[0]] + log[1..];
  }

  /** Splitting off the last entry of a log. */
  lemma LoggedBack(log: seq<Pruning>, x: VarId)
    requires log != []
    ensures Logged(log, x) ==
      Logged(log[..|log| - 1], x) + (if log[|log| - 1].variable == x then {log[|log| - 1].value} else {})
  {
    assert log == log[..|log| - 1] + [log[|log| - 1]];
  }

  /** Restoring a log gives each variable back exactly the values logged for it. */
  lemma {:induction false} RestoreAt(live: seq<set<int>>, log: seq<Pruning>, x: VarId)
    requires x < |live|
    ensures |Restore(live, log)| == |live|
    ensures Restore(live, log)[x] == live[x] + Logged(log, x)
    decreases |log|
  {
    if log != [] {
      RestoreAt(Unprune(live, log[0]), log[1..], x);
      LoggedFront(log, x);
    }
  }

  /**
   * The order in which the logged values are put back does not matter: any
   * log with the same entries (a permutation, say) restores the same domains.
   */
  lemma RestoreAnyOrder(live: seq<set<int>>, log: seq<Pruning>, log': seq<Pruning>)
    requires forall p :: p in log <==> p in log'
    ensures Restore(live, log) == Restore(live, log')
  {
    if |live| == 0 {
      RestoreLength(live, log);
      RestoreLength(live, log');
    } else {
      RestoreAt(live, log, 0);
      RestoreAt(live, log', 0);
      forall x | 0 <= x < |live| ensures Restore(live, log)[x] == Restore(live, log')[x] {
        RestoreAt(live, log, x);
        RestoreAt(live, log', x);
        assert Logged(log, x) == Logged(log', x);
      }
    }
  }

  lemma {:induction false} RestoreLength(live: seq<set<int>>, log: seq<Pruning>)
    ensures |Restore(live, log)| == |live|
    decreases |log|
  {
    if log != [] {
      RestoreLength(Unprune(live, log[0]), log[1..]);
    }
  }

  /** The live sets after removing the logged values in log order, as the propagator did. */
  function Replay(live: seq<set<int>>, log: seq<Pruning>): (r: seq<set<int>>)
    ensures |r| == |live|
    decreases |log|
  {
    if log == [] then live
    else
      var r := Replay(live, log[..|log| - 1]);
      var p := log[|log| - 1];
      if p.variable < |r| then r[p.variable := r[p.variable] - {p.value}] else r
  }

  /** Replaying a log takes from each variable exactly the values logged for it. */
  lemma {:induction false} ReplayAt(live: seq<set<int>>, log: seq<Pruning>, x: VarId)
    requires x < |live|
    ensures Replay(live, log)[x] == live[x] - Logged(log, x)
    decreases |log|
  {
    if log != [] {
      ReplayAt(live, log[..|log| - 1], x);
      LoggedBack(log, x);
    }
  }

  /** Replaying an exact log from the starting domains reaches the final domains. */
  lemma ReplayExact(before: seq<set<int>>, after: seq<set<int>>, log: seq<Pruning>)
    requires ExactUndoLog(before, after, log)
    ensures Replay(before, log) == after
  {
    forall x | 0 <= x < |before| ensures Replay(before, log)[x] == after[x] {
      ReplayAt(before, log, x);
      forall v ensures v in after[x] <==> v in before[x] && v !in Logged(log, x) {
        if v in Logged(log, x) {
          var p :| p in log && p.variable == x && p.value == v;
          assert p == Pruning(x, v);
        }
      }
    }
  }

  /** Replaying a prefix of a log leaves at least the final domains. */
  lemma ReplayPrefix(before: seq<set<int>>, after: seq<set<int>>, log: seq<Pruning>, j: nat)
    requires ExactUndoLog(before, after, log) && j <= |log|
    ensures Shrunk(after, Replay(before, log[..j]))
  {
    ReplayExact(before, after, log);
    forall x | 0 <= x < |after| ensures after[x] <= Replay(before, log[..j])[x] {
      ReplayAt(before, log, x);
      ReplayAt(before, log[..j], x);
      assert Logged(log[..j], x) <= Logged(log, x) by {
        forall v | v in Logged(log[..j], x) ensures v in Logged(log, x) {
          var p :| p in log[..j] && p.variable == x && p.value == v;
        }
      }
    }
  }

  // ---------------------------------------------------------------------------
  // Termination measure: the (variable, value) pairs not yet pruned
  // ---------------------------------------------------------------------------

  ghost function LivePairs(live: seq<set<int>>): set<(nat, int)> {
    set x: nat, v | 0 <= x < |live| && v in live[x] :: (x, v)
  }

  lemma LivePairsShrink(small: seq<set<int>>, big: seq<set<int>>)
    requires Shrunk(small, big)
    ensures LivePairs(small) <= LivePairs(big)
  {
  }

  lemma LivePairsPrune(live: seq<set<int>>, x: nat, v: int)
    requires x < |live| && v in live[x]
    ensures LivePairs(live[x := live[x] - {v}]) < LivePairs(live)
  {
    var live' := live[x := live[x] - {v}];
    LivePairsShrink(live', live);
    assert (x, v) in LivePairs(live) && (x, v) !in LivePairs(live');
  }

  /** An unassigned variable's cur_domain_size() is 0 exactly when all its values are pruned. */
  lemma CurSizeZero(csp: Csp, x: VarId)
    requires csp.Valid() && x < |csp.doms| && csp.asg[x].None?
    ensures csp.CurSize(x) == 0 <==> csp.live[x] == {}
  {
    FilterEmpty(csp.doms[x], csp.live[x]);
    assert Elems(csp.doms[x]) * csp.live[x] == csp.live[x];
  }

  /** cur_domain_size() is 0 exactly when the current domain is empty. */
  lemma CurSizeZeroAny(csp: Csp, x: VarId)
    requires csp.Valid() && x < |csp.doms|
    ensures csp.CurSize(x) == 0 <==> |CurDomainOf(csp.doms[x], csp.live[x], csp.asg[x])| == 0
    ensures csp.asg[x].None? ==> (csp.CurSize(x) == 0 <==> csp.live[x] == {})
  {
    if csp.asg[x].None? {
      CurSizeZero(csp, x);
    }
  }

  // ---------------------------------------------------------------------------
  // The CSP registry
  // ---------------------------------------------------------------------------

  class Csp {
    /** Each variable's full domain, in order (fixed once the variable exists). */
    var doms: seq<seq<int>>
    /** Each variable's values not pruned: the curdom flags, as a set. */
    var live: seq<set<int>>
    /** Each variable's assigned value, if any. */
    var asg: seq<Option<int>>
    /** The registered constraints; a constraint's identity is its index. */
    var cons: seq<Constraint>

    ghost predicate Valid()
      reads this
    {
      |doms| == |live| == |asg| &&
      (forall x :: 0 <= x < |doms| ==> Distinct(doms[x]) && live[x] <= Elems(doms[x])) &&
      ConsWithin(cons, |doms|)
    }

    constructor ()
      ensures Valid()
      ensures doms == [] && live == [] && asg == [] && cons == []
    {
      doms, live, asg, cons := [], [], [], [];
    }

    /** add_var: register a new variable with every domain value still present. */
    method AddVar(info: VarInfo) returns (x: VarId)
      requires Valid() && Distinct(info.dom)
      modifies this
      ensures Valid()
      ensures x == |old(doms)|
      ensures doms == old(doms) + [info.dom] && live == old(live) + [Elems(info.dom)]
      ensures asg == old(asg) + [info.assignment] && cons == old(cons)
    {
      x := |doms|;
      doms, live, asg := doms + [info.dom], live + [Elems(info.dom)], asg + [info.assignment];
    }

    /** add_constraint: every scope variable must already be registered. */
    method AddConstraint(c: Constraint)
      requires Valid() && ScopeWithin(c.scope, |doms|)
      modifies this
      ensures Valid()
      ensures cons == old(cons) + [c]
      ensures doms == old(doms) && live == old(live) && asg == old(asg)
    {
      cons := cons + [c];
    }

    /** prune_value: clear the value's flag (it must be one of the domain's values). */
    method PruneValue(x: VarId, v: int)
      requires Valid() && x < |doms| && v in doms[x]
      modifies this
      ensures Valid()
      ensures live == old(live)[x := old(live)[x] - {v}]
      ensures doms == old(doms) && asg == old(asg) && cons == old(cons)
    {
      live := live[x := live[x] - {v}];
    }

    function Cur(): (cur: seq<set<int>>)
      reads this
      requires Valid()
      ensures |cur| == |doms|
    {
      CurView(asg, live)
    }

    /** cur_domain() */
    function CurDomain(x: VarId): (d: seq<int>)
      reads this
      requires Valid() && x < |doms|
      ensures Distinct(d)
      ensures forall v :: v in d <==> v in Cur()[x]
    {
      CurDomainOf(doms[x], live[x], asg[x])
    }

    /** cur_domain_size() */
    function CurSize(x: VarId): nat
      reads this
      requires Valid() && x < |doms|
    {
      |CurDomain(x)|
    }

    /** get_cons_with_var(x) */
    function ConsWithVar(x: VarId): (cs: seq<nat>)
      reads this
      ensures forall k: nat :: k in cs <==> k < |cons| && x in cons[k].scope
      ensures forall i :: 0 <= i < |cs| ==> cs[i] < |cons| && x in cons[cs[i]].scope
      ensures Increasing(cs)
    {
      IndicesOn(cons, x)
    }

    /** get_all_cons() */
    function AllCons(): (cs: seq<nat>)
      reads this
      ensures forall k: nat :: k in cs <==> k < |cons|
      ensures forall i :: 0 <= i < |cs| ==> cs[i] < |cons|
      ensures Increasing(cs)
    {
      Upto(|cons|)
    }

    /** get_all_unasgn_vars() */
    function UnassignedVars(): (us: seq<VarId>)
      reads this
      ensures forall x: nat :: x in us <==> x < |asg| && asg[x].None?
      ensures forall i :: 0 <= i < |us| ==> us[i] < |asg| && asg[us[i]].None?
      ensures Increasing(us)
    {
      UnassignedOf(asg)
    }
  }
}
