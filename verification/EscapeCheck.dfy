/**
 The escape check of scripts/ci/check-dependency-direction.ts: whether a use of the ambient
 `process` value stays closed when it is passed to local callbacks or kept in a local object.

 The syntax tree is reduced to what the check reads off it: how each use is classified, which
 callback parameters a call argument reaches, and the references to a parameter in its body.
 */
module EscapeCheck {
  import opened Common

  type NodeId = nat

  /** A parameter of a local callback: the position of the callback and the index of the parameter. */
  datatype Parameter = Parameter(callback: nat, index: nat)

  /** An invocation of a local callback that receives the value. */
  datatype Match = Match(arrow: bool, stable: bool, parameter: Parameter)

  /** What the traversal of a callback body, or of the users of a local object, comes across. */
  datatype Reference = Breaks | Uses(node: NodeId)

  datatype Use =
    | Audited  // an audited read, an operational call or an identity comparison
    | Open     // anything the check does not admit
    | Argument(stable: bool, matches: seq<Match>)
    | Container(references: seq<Reference>)  // stored in a property of a local object literal

  /** `params` holds the plain parameters; rest, defaulted and destructured ones are absent. */
  datatype Program = Program(uses: map<NodeId, Use>, params: map<Parameter, seq<Reference>>)

  function UseOf(p: Program, node: NodeId): Use {
    if node in p.uses then p.uses[node] else Open
  }

  // ---------- What it means to be closed ----------

  /**
   A derivation of height `n` that a use is closed, not going through the parameters in `avoid`.
   An object literal is admitted only where `container` says so.
   */
  ghost predicate UseWithin(p: Program, node: NodeId, container: bool, n: nat, avoid: set<Parameter>)
    decreases n
  {
    n > 0 &&
    match UseOf(p, node)
    case Audited => true
    case Open => false
    case Argument(stable, matches) =>
      && stable && matches != []
      && forall i :: 0 <= i < |matches| ==>
           matches[i].arrow && matches[i].stable && ParameterWithin(p, matches[i].parameter, n - 1, avoid)
    case Container(references) => container && ReferencesWithin(p, references, n - 1, avoid)
  }

  ghost predicate ParameterWithin(p: Program, k: Parameter, n: nat, avoid: set<Parameter>)
    decreases n
  {
    n > 0 && k in p.params && k !in avoid && ReferencesWithin(p, p.params[k], n - 1, avoid)
  }

  /** At least one reference, and each a closed use. */
  ghost predicate ReferencesWithin(p: Program, rs: seq<Reference>, n: nat, avoid: set<Parameter>)
    decreases n
  {
    && n > 0 && rs != []
    && forall i :: 0 <= i < |rs| ==> rs[i].Uses? && UseWithin(p, rs[i].node, false, n - 1, avoid)
  }

  ghost predicate UseClosed(p: Program, node: NodeId, container: bool, avoid: set<Parameter>) {
    exists n :: UseWithin(p, node, container, n, avoid)
  }

  ghost predicate ParameterClosed(p: Program, k: Parameter, avoid: set<Parameter>) {
    exists n :: ParameterWithin(p, k, n, avoid)
  }

  ghost predicate ReferencesClosed(p: Program, rs: seq<Reference>, avoid: set<Parameter>) {
    rs != [] && forall i :: 0 <= i < |rs| ==> rs[i].Uses? && UseClosed(p, rs[i].node, false, avoid)
  }

  // ---------- Derivations ----------

  /** Higher derivations, and derivations that avoid less. */
  lemma {:induction false} UseMonotone(p: Program, node: NodeId, container: bool, n: nat, m: nat, avoid: set<Parameter>, less: set<Parameter>)
    requires n <= m && less <= avoid && UseWithin(p, node, container, n, avoid)
    ensures UseWithin(p, node, container, m, less)
    decreases n
  {
    match UseOf(p, node)
    case Argument(_, matches) =>
      forall i | 0 <= i < |matches|
        ensures ParameterWithin(p, matches[i].parameter, m - 1, less)
      {
        ParameterMonotone(p, matches[i].parameter, n - 1, m - 1, avoid, less);
      }
    case Container(references) => ReferencesMonotone(p, references, n - 1, m - 1, avoid, less);
    case _ =>
  }

  lemma {:induction false} ParameterMonotone(p: Program, k: Parameter, n: nat, m: nat, avoid: set<Parameter>, less: set<Parameter>)
    requires n <= m && less <= avoid && ParameterWithin(p, k, n, avoid)
    ensures ParameterWithin(p, k, m, less)
    decreases n
  {
    ReferencesMonotone(p, p.params[k], n - 1, m - 1, avoid, less);
  }

  lemma {:induction false} ReferencesMonotone(p: Program, rs: seq<Reference>, n: nat, m: nat, avoid: set<Parameter>, less: set<Parameter>)
    requires n <= m && less <= avoid && ReferencesWithin(p, rs, n, avoid)
    ensures ReferencesWithin(p, rs, m, less)
    decreases n
  {
    forall i | 0 <= i < |rs|
      ensures UseWithin(p, rs[i].node, false, m - 1, less)
    {
      UseMonotone(p, rs[i].node, false, n - 1, m - 1, avoid, less);
    }
  }

  /** A derivation too low to contain a derivation of `k` does not go through `k`. */
  lemma {:induction false} UseAvoids(p: Program, node: NodeId, container: bool, n: nat, avoid: set<Parameter>, k: Parameter)
    requires UseWithin(p, node, container, n, avoid)
    requires forall j: nat :: j <= n ==> !ParameterWithin(p, k, j, avoid)
    ensures UseWithin(p, node, container, n, avoid + {k})
    decreases n
  {
    match UseOf(p, node)
    case Argument(_, matches) =>
      forall i | 0 <= i < |matches|
        ensures ParameterWithin(p, matches[i].parameter, n - 1, avoid + {k})
      {
        var q := matches[i].parameter;
        assert q != k;
        ReferencesAvoid(p, p.params[q], n - 2, avoid, k);
      }
    case Container(references) => ReferencesAvoid(p, references, n - 1, avoid, k);
    case _ =>
  }

  lemma {:induction false} ReferencesAvoid(p: Program, rs: seq<Reference>, n: nat, avoid: set<Parameter>, k: Parameter)
    requires ReferencesWithin(p, rs, n, avoid)
    requires forall j: nat :: j <= n ==> !ParameterWithin(p, k, j, avoid)
    ensures ReferencesWithin(p, rs, n, avoid + {k})
    decreases n
  {
    forall i | 0 <= i < |rs|
      ensures UseWithin(p, rs[i].node, false, n - 1, avoid + {k})
    {
      UseAvoids(p, rs[i].node, false, n - 1, avoid, k);
    }
  }

  /** Derivations of all references combine into one. */
  lemma {:induction false} Collect(p: Program, rs: seq<Reference>, avoid: set<Parameter>) returns (n: nat)
    requires forall i :: 0 <= i < |rs| ==> rs[i].Uses? && UseClosed(p, rs[i].node, false, avoid)
    ensures forall i :: 0 <= i < |rs| ==> rs[i].Uses? && UseWithin(p, rs[i].node, false, n, avoid)
    decreases rs
  {
    if rs == [] {
      n := 0;
    } else {
      var first: nat :| UseWithin(p, rs[0].node, false, first, avoid);
      var rest := Collect(p, rs[1..], avoid);
      n := if first > rest then first else rest;
      forall i | 0 <= i < |rs|
        ensures UseWithin(p, rs[i].node, false, n, avoid)
      {
        if i == 0 { UseMonotone(p, rs[0].node, false, first, n, avoid, avoid); }
        else { UseMonotone(p, rs[1..][i - 1].node, false, rest, n, avoid, avoid); }
      }
    }
  }

  lemma ReferencesMeaning(p: Program, rs: seq<Reference>, avoid: set<Parameter>)
    ensures ReferencesClosed(p, rs, avoid) <==> exists n: nat :: ReferencesWithin(p, rs, n, avoid)
  {
    if ReferencesClosed(p, rs, avoid) {
      var n := Collect(p, rs, avoid);
      assert ReferencesWithin(p, rs, n + 1, avoid);
    }
  }

  /**
   The cycle guard is exact: a parameter is closed if and only if its references are closed without
   going through the parameter again.
   */
  lemma GuardIsExact(p: Program, k: Parameter, avoid: set<Parameter>)
    requires k in p.params && k !in avoid
    ensures ParameterClosed(p, k, avoid) <==> ReferencesClosed(p, p.params[k], avoid + {k})
  {
    var rs := p.params[k];
    ReferencesMeaning(p, rs, avoid + {k});
    if ReferencesClosed(p, rs, avoid + {k}) {
      var n: nat :| ReferencesWithin(p, rs, n, avoid + {k});
      ReferencesMonotone(p, rs, n, n, avoid + {k}, avoid);
      assert ParameterWithin(p, k, n + 1, avoid);
    }
    if ParameterClosed(p, k, avoid) {
      var n: nat :| ParameterWithin(p, k, n, avoid);
      var least := LeastHeight(p, k, n, avoid);
      ReferencesAvoid(p, rs, least - 1, avoid, k);
    }
  }

  lemma {:induction false} LeastHeight(p: Program, k: Parameter, n: nat, avoid: set<Parameter>) returns (least: nat)
    requires ParameterWithin(p, k, n, avoid)
    ensures ParameterWithin(p, k, least, avoid)
    ensures forall j: nat :: j < least ==> !ParameterWithin(p, k, j, avoid)
    decreases n
  {
    if j: nat :| j < n && ParameterWithin(p, k, j, avoid) {
      least := LeastHeight(p, k, j, avoid);
    } else {
      least := n;
    }
  }

  lemma ArgumentMeaning(p: Program, node: NodeId, container: bool, avoid: set<Parameter>)
    requires UseOf(p, node).Argument?
    ensures UseClosed(p, node, container, avoid) <==>
      var use := UseOf(p, node);
      && use.stable && use.matches != []
      && forall i :: 0 <= i < |use.matches| ==>
           use.matches[i].arrow && use.matches[i].stable && ParameterClosed(p, use.matches[i].parameter, avoid)
  {
    var matches := UseOf(p, node).matches;
    if UseOf(p, node).stable && matches != []
       && forall i :: 0 <= i < |matches| ==>
            matches[i].arrow && matches[i].stable && ParameterClosed(p, matches[i].parameter, avoid)
    {
      var n := CollectParameters(p, matches, avoid);
      assert UseWithin(p, node, container, n + 1, avoid);
    }
    if UseClosed(p, node, container, avoid) {
      var n: nat :| UseWithin(p, node, container, n, avoid);
      forall i | 0 <= i < |matches|
        ensures ParameterClosed(p, matches[i].parameter, avoid)
      {
        assert ParameterWithin(p, matches[i].parameter, n - 1, avoid);
      }
    }
  }

  lemma {:induction false} CollectParameters(p: Program, matches: seq<Match>, avoid: set<Parameter>) returns (n: nat)
    requires forall i :: 0 <= i < |matches| ==> ParameterClosed(p, matches[i].parameter, avoid)
    ensures forall i :: 0 <= i < |matches| ==> ParameterWithin(p, matches[i].parameter, n, avoid)
    decreases matches
  {
    if matches == [] {
      n := 0;
    } else {
      var first: nat :| ParameterWithin(p, matches[0].parameter, first, avoid);
      var rest := CollectParameters(p, matches[1..], avoid);
      n := if first > rest then first else rest;
      forall i | 0 <= i < |matches|
        ensures ParameterWithin(p, matches[i].parameter, n, avoid)
      {
        if i == 0 { ParameterMonotone(p, matches[0].parameter, first, n, avoid, avoid); }
        else { ParameterMonotone(p, matches[1..][i - 1].parameter, rest, n, avoid, avoid); }
      }
    }
  }

  lemma ContainerMeaning(p: Program, node: NodeId, container: bool, avoid: set<Parameter>)
    requires UseOf(p, node).Container?
    ensures UseClosed(p, node, container, avoid) <==>
      container && ReferencesClosed(p, UseOf(p, node).references, avoid)
  {
    var rs := UseOf(p, node).references;
    ReferencesMeaning(p, rs, avoid);
    if container && ReferencesClosed(p, rs, avoid) {
      var n: nat :| ReferencesWithin(p, rs, n, avoid);
      assert UseWithin(p, node, container, n + 1, avoid);
    }
    if UseClosed(p, node, container, avoid) {
      var n: nat :| UseWithin(p, node, container, n, avoid);
      assert ReferencesWithin(p, rs, n - 1, avoid);
    }
  }

  lemma LeafMeaning(p: Program, node: NodeId, container: bool, avoid: set<Parameter>)
    ensures UseOf(p, node).Audited? ==> UseClosed(p, node, container, avoid)
    ensures UseOf(p, node).Open? ==> !UseClosed(p, node, container, avoid)
  {
    if UseOf(p, node).Audited? {
      assert UseWithin(p, node, container, 1, avoid);
    }
  }

  // ---------- The check ----------

  class Checker {
    const program: Program

    /** The callback parameters being examined on the current path. */
    var active: set<Parameter>

    constructor (program: Program)
      ensures this.program == program && active == {}
    {
      this.program := program;
      active := {};
    }

    /** The lexicographic measure of the recursion: parameters not yet active, then the container flag. */
    ghost function Inactive(): nat
      reads this
    {
      |program.params.Keys - active|
    }

    method ValueUse(node: NodeId, container: bool) returns (closed: bool)
      modifies this
      ensures active == old(active)
      ensures closed <==> UseClosed(program, node, container, active)
      decreases Inactive(), if container then 1 else 0, 3
    {
      LeafMeaning(program, node, container, active);
      var use := UseOf(program, node);
      match use
      case Audited => return true;
      case Open => return false;
      case Argument(stable, matches) =>
        ArgumentMeaning(program, node, container, active);
        closed := ArgumentUse(stable, matches);
      case Container(references) =>
        ContainerMeaning(program, node, container, active);
        if !container {
          return false;
        }
        closed := References(references);
    }

    method ArgumentUse(stable: bool, matches: seq<Match>) returns (closed: bool)
      modifies this
      ensures active == old(active)
      ensures closed <==>
        && stable && matches != []
        && forall i :: 0 <= i < |matches| ==>
             matches[i].arrow && matches[i].stable && ParameterClosed(program, matches[i].parameter, active)
      decreases Inactive(), 0, 2
    {
      if !stable {
        return false;
      }
      closed := false;
      var i := 0;
      while i < |matches|
        invariant 0 <= i <= |matches| && active == old(active)
        invariant closed <==> i > 0
        invariant forall j :: 0 <= j < i ==>
          matches[j].arrow && matches[j].stable && ParameterClosed(program, matches[j].parameter, active)
      {
        closed := true;
        if !matches[i].arrow || !matches[i].stable {
          return false;
        }
        var inner := ParameterUses(matches[i].parameter);
        if !inner {
          return false;
        }
        i := i + 1;
      }
    }

    method ParameterUses(k: Parameter) returns (closed: bool)
      modifies this
      ensures active == old(active)
      ensures closed <==> ParameterClosed(program, k, active)
      decreases Inactive(), 0, 1
    {
      if k !in program.params || k in active {
        return false;
      }
      GuardIsExact(program, k, active);
      ghost var keys, before := program.params.Keys, active;
      assert keys - (before + {k}) < keys - before by {
        assert k in keys - before && k !in keys - (before + {k});
      }
      SmallerSet(keys - (before + {k}), keys - before);
      active := active + {k};
      closed := References(program.params[k]);
      active := active - {k};
      assert active == before;
    }

    /** The traversal shared by a callback body and the users of a local object. */
    method References(rs: seq<Reference>) returns (closed: bool)
      modifies this
      ensures active == old(active)
      ensures closed <==> ReferencesClosed(program, rs, active)
      decreases Inactive(), 0, 4
    {
      closed := true;
      var saw := false;
      var i := 0;
      while i < |rs| && closed
        invariant 0 <= i <= |rs| && active == old(active)
        invariant closed ==> (saw <==> i > 0)
        invariant closed ==> forall j :: 0 <= j < i ==> rs[j].Uses? && UseClosed(program, rs[j].node, false, active)
        invariant !closed ==> !ReferencesClosed(program, rs, active)
      {
        if rs[i].Breaks? {
          closed := false;
        } else {
          saw := true;
          closed := ValueUse(rs[i].node, false);
        }
        i := i + 1;
      }
      closed := closed && saw;
    }
  }

  lemma SmallerSet<T>(a: set<T>, b: set<T>)
    requires a < b
    ensures |a| < |b|
  {
    assert b == a + (b - a);
    assert b - a != {};
  }

  /** The entry point: the check starts with no active parameter and admits one local object. */
  method AuthorityEscapes(p: Program, node: NodeId) returns (escapes: bool)
    ensures escapes <==> !UseClosed(p, node, true, {})
  {
    var checker := new Checker(p);
    var closed := checker.ValueUse(node, true);
    escapes := !closed;
  }

  // ---------- Soundness ----------

  /** The value used at `from` is also used at `to`: through a callback parameter or a local object. */
  ghost predicate Flows(p: Program, from: NodeId, to: NodeId) {
    match UseOf(p, from)
    case Argument(_, matches) =>
      exists i, k, j :: 0 <= i < |matches| && k == matches[i].parameter && k in p.params
                     && 0 <= j < |p.params[k]| && p.params[k][j] == Uses(to)
    case Container(references) => Uses(to) in references
    case _ => false
  }

  ghost predicate FlowPath(p: Program, path: seq<NodeId>) {
    path != [] && forall i :: 0 <= i < |path| - 1 ==> Flows(p, path[i], path[i + 1])
  }

  /** A value that the check admits reaches no open use, however many callbacks it is passed through. */
  lemma {:induction false} ClosedNeverReachesOpen(p: Program, container: bool, n: nat, path: seq<NodeId>)
    requires FlowPath(p, path) && UseWithin(p, path[0], container, n, {})
    ensures !UseOf(p, path[|path| - 1]).Open?
    ensures |path| <= n  // so no admitted value goes round a cycle of callbacks
    decreases path
  {
    if |path| > 1 {
      var next := path[1];
      assert Flows(p, path[0], next);
      if UseOf(p, path[0]).Argument? {
        var matches := UseOf(p, path[0]).matches;
        var i, k, j :| 0 <= i < |matches| && k == matches[i].parameter && k in p.params
                    && 0 <= j < |p.params[k]| && p.params[k][j] == Uses(next);
        assert ParameterWithin(p, k, n - 1, {});
        assert ReferencesWithin(p, p.params[k], n - 2, {});
        assert UseWithin(p, p.params[k][j].node, false, n - 3, {});
        ClosedNeverReachesOpen(p, false, n - 3, path[1..]);
      } else {
        var rs := UseOf(p, path[0]).references;
        var j :| 0 <= j < |rs| && rs[j] == Uses(next);
        assert UseWithin(p, next, false, n - 2, {});
        ClosedNeverReachesOpen(p, false, n - 2, path[1..]);
      }
    }
  }

  // ---------- Exactness ----------

  /** Nothing is wrong with a use by itself: each thing the check asks of it, and of where its value goes next. */
  predicate Fine(p: Program, node: NodeId, container: bool) {
    match UseOf(p, node)
    case Audited => true
    case Open => false
    case Argument(stable, matches) =>
      && stable && matches != []
      && forall i :: 0 <= i < |matches| ==>
           && matches[i].arrow && matches[i].stable && matches[i].parameter in p.params
           && AllUses(p.params[matches[i].parameter])
    case Container(references) => container && AllUses(references)
  }

  predicate AllUses(rs: seq<Reference>) {
    rs != [] && forall j :: 0 <= j < |rs| ==> rs[j].Uses?
  }

  /** Everything the value reaches is fine, a local object only at the start, and no path is longer than `n`. */
  ghost predicate AllFine(p: Program, node: NodeId, container: bool, n: nat) {
    forall path :: FlowPath(p, path) && path[0] == node ==>
      |path| <= n && Fine(p, path[|path| - 1], container && |path| == 1)
  }

  lemma {:induction false} ClosedIsFine(p: Program, container: bool, n: nat, path: seq<NodeId>)
    requires FlowPath(p, path) && UseWithin(p, path[0], container, n, {})
    ensures Fine(p, path[|path| - 1], container && |path| == 1)
    decreases path
  {
    if |path| == 1 {
      FineHere(p, path[0], container, n);
    } else {
      var next := path[1];
      assert Flows(p, path[0], next);
      if UseOf(p, path[0]).Argument? {
        var matches := UseOf(p, path[0]).matches;
        var i, k, j :| 0 <= i < |matches| && k == matches[i].parameter && k in p.params
                    && 0 <= j < |p.params[k]| && p.params[k][j] == Uses(next);
        assert ParameterWithin(p, k, n - 1, {});
        assert ReferencesWithin(p, p.params[k], n - 2, {});
        assert UseWithin(p, p.params[k][j].node, false, n - 3, {});
        ClosedIsFine(p, false, n - 3, path[1..]);
      } else {
        var rs := UseOf(p, path[0]).references;
        var j :| 0 <= j < |rs| && rs[j] == Uses(next);
        assert UseWithin(p, next, false, n - 2, {});
        ClosedIsFine(p, false, n - 2, path[1..]);
      }
    }
  }

  lemma FineHere(p: Program, node: NodeId, container: bool, n: nat)
    requires UseWithin(p, node, container, n, {})
    ensures Fine(p, node, container)
  {
    if UseOf(p, node).Argument? {
      var matches := UseOf(p, node).matches;
      forall i | 0 <= i < |matches|
        ensures matches[i].parameter in p.params && AllUses(p.params[matches[i].parameter])
      {
        assert ParameterWithin(p, matches[i].parameter, n - 1, {});
        assert ReferencesWithin(p, p.params[matches[i].parameter], n - 2, {});
      }
    }
  }

  /** Where the value goes next, everything it reaches is fine within one step less. */
  lemma FineNext(p: Program, node: NodeId, to: NodeId, container: bool, n: nat)
    requires AllFine(p, node, container, n) && Flows(p, node, to)
    ensures n > 0 && AllFine(p, to, false, n - 1)
  {
    assert FlowPath(p, [node]);
    forall path | FlowPath(p, path) && path[0] == to
      ensures |path| <= n - 1 && Fine(p, path[|path| - 1], false)
    {
      var longer := [node] + path;
      forall i | 0 <= i < |longer| - 1
        ensures Flows(p, longer[i], longer[i + 1])
      {
        if i > 0 { assert longer[i] == path[i - 1] && longer[i + 1] == path[i]; }
      }
      assert FlowPath(p, longer) && longer[0] == node;
      assert longer[|longer| - 1] == path[|path| - 1];
    }
  }

  lemma {:induction false} FineIsClosed(p: Program, node: NodeId, container: bool, n: nat)
    requires AllFine(p, node, container, n)
    ensures UseWithin(p, node, container, 3 * n, {})
    decreases n
  {
    var path := [node];
    assert FlowPath(p, path) && path[0] == node;
    assert Fine(p, node, container) && n > 0;
    match UseOf(p, node)
    case Argument(_, matches) =>
      forall i | 0 <= i < |matches|
        ensures ParameterWithin(p, matches[i].parameter, 3 * n - 1, {})
      {
        var k := matches[i].parameter;
        var rs := p.params[k];
        forall j | 0 <= j < |rs|
          ensures UseWithin(p, rs[j].node, false, 3 * n - 3, {})
        {
          assert rs[j] == Uses(rs[j].node) && Flows(p, node, rs[j].node);
          FineNext(p, node, rs[j].node, container, n);
          FineIsClosed(p, rs[j].node, false, n - 1);
        }
        assert ReferencesWithin(p, rs, 3 * n - 2, {});
      }
    case Container(rs) =>
      forall j | 0 <= j < |rs|
        ensures UseWithin(p, rs[j].node, false, 3 * n - 2, {})
      {
        assert rs[j] == Uses(rs[j].node) && Flows(p, node, rs[j].node);
        FineNext(p, node, rs[j].node, container, n);
        FineIsClosed(p, rs[j].node, false, n - 1);
        UseMonotone(p, rs[j].node, false, 3 * n - 3, 3 * n - 2, {}, {});
      }
      assert ReferencesWithin(p, rs, 3 * n - 1, {});
    case _ =>
  }

  /**
   The check in terms of where values go: a use is admitted if and only if every use its value reaches is fine
   by itself and it goes round no cycle.  Nothing else is refused.
   */
  lemma AdmitsExactlyFine(p: Program, node: NodeId, container: bool)
    ensures UseClosed(p, node, container, {}) <==> exists n :: AllFine(p, node, container, n)
  {
    if UseClosed(p, node, container, {}) {
      var n: nat :| UseWithin(p, node, container, n, {});
      forall path | FlowPath(p, path) && path[0] == node
        ensures |path| <= n && Fine(p, path[|path| - 1], container && |path| == 1)
      {
        ClosedNeverReachesOpen(p, container, n, path);
        ClosedIsFine(p, container, n, path);
      }
      assert AllFine(p, node, container, n);
    }
    if exists n :: AllFine(p, node, container, n) {
      var n: nat :| AllFine(p, node, container, n);
      FineIsClosed(p, node, container, n);
    }
  }
}
