/** internal/playbook/playbook.go: Load after parsing. Validation of names and
    dependencies, then the depth-first search for cycles. */
module Playbook {
  import opened Wrappers
  import opened Digraph

  datatype Step = Step(name: string, command: string, sudo: bool, roles: seq<string>, dependsOn: seq<string>)

  datatype LoadError =
    | NoName(index: nat)
    | NoCommand(step: string)
    | UnknownDependency(step: string, dep: string)
    | DependencyCycle(step: string)
    | NoSteps

  datatype LoadResult = Accepted | Rejected(error: LoadError)

  /** The `deps` map of Load: on a repeated step name the last step wins. */
  function LastDeps(steps: seq<Step>): Graph<string>
  {
    if steps == [] then map[]
    else
      var last := steps[|steps| - 1];
      LastDeps(steps[..|steps| - 1])[last.name := last.dependsOn]
  }

  predicate Labelled(s: Step)
  {
    s.name != "" && s.command != ""
  }

  predicate Named(steps: seq<Step>, name: string)
  {
    exists i :: 0 <= i < |steps| && steps[i].name == name
  }

  ghost predicate AllKnown(steps: seq<Step>)
  {
    forall i, k :: 0 <= i < |steps| && 0 <= k < |steps[i].dependsOn| ==> Named(steps, steps[i].dependsOn[k])
  }

  lemma {:induction false} LastDepsKeys(steps: seq<Step>)
    ensures forall n :: n in LastDeps(steps) <==> Named(steps, n)
  {
    if steps != [] {
      var init, last := steps[..|steps| - 1], steps[|steps| - 1];
      LastDepsKeys(init);
      forall n ensures n in LastDeps(steps) <==> Named(steps, n) {
        if Named(init, n) {
          var i :| 0 <= i < |init| && init[i].name == n;
          assert steps[i].name == n;
        } else if Named(steps, n) {
          var i :| 0 <= i < |steps| && steps[i].name == n;
          assert i == |init|;
        }
        if n == last.name { assert steps[|steps| - 1].name == n; }
      }
    }
  }

  lemma {:induction false} LastDepsFrom(steps: seq<Step>, n: string)
    requires n in LastDeps(steps)
    ensures exists i :: 0 <= i < |steps| && steps[i].name == n && steps[i].dependsOn == LastDeps(steps)[n]
                        && forall j :: i < j < |steps| ==> steps[j].name != n
  {
    var init, last := steps[..|steps| - 1], steps[|steps| - 1];
    if n == last.name {
      assert steps[|steps| - 1] == last;
    } else {
      LastDepsFrom(init, n);
      var i :| 0 <= i < |init| && init[i].name == n && init[i].dependsOn == LastDeps(init)[n]
               && forall j :: i < j < |init| ==> init[j].name != n;
      assert steps[i] == init[i];
      forall j | i < j < |steps| ensures steps[j].name != n {
        if j < |init| { assert init[j].name != n; }
      }
    }
  }

  /** Every edge of the last-wins graph ends in a node of it, once names are known. */
  lemma KnownGraphIsClosed(steps: seq<Step>)
    requires AllKnown(steps)
    ensures forall u, v :: Edge(LastDeps(steps), u, v) ==> v in LastDeps(steps)
  {
    forall u, v | Edge(LastDeps(steps), u, v) ensures v in LastDeps(steps) {
      LastDepsFrom(steps, u);
      LastDepsKeys(steps);
      var i :| 0 <= i < |steps| && steps[i].name == u && steps[i].dependsOn == LastDeps(steps)[u];
      var k :| 0 <= k < |steps[i].dependsOn| && steps[i].dependsOn[k] == v;
      assert Named(steps, steps[i].dependsOn[k]);
    }
  }

  /** What Load promises about a playbook it accepts. Nothing forbids two steps
      with one name. */
  ghost predicate Acceptable(steps: seq<Step>)
  {
    && steps != []
    && (forall i :: 0 <= i < |steps| ==> Labelled(steps[i]))
    && AllKnown(steps)
    && !Cyclic(LastDeps(steps))
  }

  ghost predicate ErrorIsDue(steps: seq<Step>, e: LoadError)
  {
    match e
    case NoName(i) => i < |steps| && steps[i].name == "" && forall j :: 0 <= j < i ==> Labelled(steps[j])
    case NoCommand(n) =>
      exists i :: 0 <= i < |steps| && steps[i].name == n != "" && steps[i].command == ""
                && forall j :: 0 <= j < i ==> Labelled(steps[j])
    case UnknownDependency(n, d) =>
      && (forall i :: 0 <= i < |steps| ==> Labelled(steps[i]))
      && !Named(steps, d) && exists i :: 0 <= i < |steps| && steps[i].name == n && d in steps[i].dependsOn
    case DependencyCycle(n) =>
      && (forall i :: 0 <= i < |steps| ==> Labelled(steps[i]))
      && AllKnown(steps) && OnCycle(LastDeps(steps), n)
    case NoSteps => steps == []
  }

  /** Every dependency before the k-th of step `i`, in list order, is the name of a step. */
  ghost predicate KnownBefore(steps: seq<Step>, i: int, k: int)
  {
    forall j, l :: 0 <= j < |steps| && 0 <= l < |steps[j].dependsOn| && (j < i || (j == i && l < k)) ==>
      exists m :: 0 <= m < |steps| && steps[m].name == steps[j].dependsOn[l]
  }

  /** The two validation loops: the first defect in list order, if any. */
  method Validate(steps: seq<Step>) returns (r: LoadResult)
    ensures r.Accepted? <==> (forall i :: 0 <= i < |steps| ==> Labelled(steps[i])) && AllKnown(steps)
    ensures r.Rejected? ==> ErrorIsDue(steps, r.error)
    ensures r.Accepted? ==> forall i :: 0 <= i < |steps| ==> steps[i].name != "" && steps[i].command != ""
    // The first step in list order without a name or without a command decides the error.
    ensures forall i :: 0 <= i < |steps| && steps[i].name == ""
                        && (forall j :: 0 <= j < i ==> steps[j].name != "" && steps[j].command != "") ==>
              r == Rejected(NoName(i))
    ensures forall i :: 0 <= i < |steps| && steps[i].name != "" && steps[i].command == ""
                        && (forall j :: 0 <= j < i ==> steps[j].name != "" && steps[j].command != "") ==>
              r == Rejected(NoCommand(steps[i].name))
    // Otherwise the first dependency in list order that is the name of no step.
    ensures forall i, k :: 0 <= i < |steps| && 0 <= k < |steps[i].dependsOn|
                           && (forall j :: 0 <= j < |steps| ==> steps[j].name != "" && steps[j].command != "")
                           && (forall m :: 0 <= m < |steps| ==> steps[m].name != steps[i].dependsOn[k])
                           && KnownBefore(steps, i, k) ==>
              r == Rejected(UnknownDependency(steps[i].name, steps[i].dependsOn[k]))
  {
    var names: set<string> := {};
    for i := 0 to |steps|
      invariant forall j :: 0 <= j < i ==> Labelled(steps[j])
      invariant forall n :: n in names <==> exists j :: 0 <= j < i && steps[j].name == n
    {
      if steps[i].name == "" {
        return Rejected(NoName(i));
      }
      if steps[i].command == "" {
        return Rejected(NoCommand(steps[i].name));
      }
      names := names + {steps[i].name};
    }
    for i := 0 to |steps|
      invariant forall j, k :: 0 <= j < i && 0 <= k < |steps[j].dependsOn| ==> Named(steps, steps[j].dependsOn[k])
    {
      var ds := steps[i].dependsOn;
      for k := 0 to |ds|
        invariant forall m :: 0 <= m < k ==> Named(steps, ds[m])
      {
        if ds[k] !in names {
          assert !Named(steps, steps[i].dependsOn[k]);
          FirstUnknown(steps, i, k);
          return Rejected(UnknownDependency(steps[i].name, ds[k]));
        }
      }
    }
    r := Accepted;
  }

  /** The place the second loop stops at is the only first one. */
  lemma FirstUnknown(steps: seq<Step>, i: nat, k: nat)
    requires i < |steps| && k < |steps[i].dependsOn| && !Named(steps, steps[i].dependsOn[k])
    requires forall j, l :: 0 <= j < i && 0 <= l < |steps[j].dependsOn| ==> Named(steps, steps[j].dependsOn[l])
    requires forall l :: 0 <= l < k ==> Named(steps, steps[i].dependsOn[l])
    ensures forall j, l :: 0 <= j < |steps| && 0 <= l < |steps[j].dependsOn|
                           && (forall m :: 0 <= m < |steps| ==> steps[m].name != steps[j].dependsOn[l])
                           && KnownBefore(steps, j, l) ==>
              j == i && l == k
  {
    forall j, l | 0 <= j < |steps| && 0 <= l < |steps[j].dependsOn| && KnownBefore(steps, j, l)
                  && (forall m :: 0 <= m < |steps| ==> steps[m].name != steps[j].dependsOn[l])
      ensures j == i && l == k
    {
      assert !Named(steps, steps[j].dependsOn[l]);
    }
  }

  /** The search over every step name: a name on a cycle, or a topological order. */
  method Search(steps: seq<Step>, deps: Graph<string>) returns (culprit: Option<string>, ghost order: seq<string>)
    requires AllKnown(steps) && deps == LastDeps(steps)
    ensures culprit.Some? <==> Cyclic(deps)
    ensures culprit.Some? ==> OnCycle(deps, culprit.value)
    ensures culprit.None? ==> Topological(deps, order) && forall n :: Named(steps, n) <==> n in order
  {
    LastDepsKeys(steps);
    KnownGraphIsClosed(steps);
    order := [];
    var check := new CycleCheck(deps);
    for i := 0 to |steps|
      invariant check.deps == deps && check.Valid([])
      invariant forall j :: 0 <= j < i ==> steps[j].name in check.Done()
    {
      assert Named(steps, steps[i].name);
      culprit := check.Dfs(steps[i].name, []);
      if culprit.Some? {
        return;
      }
    }
    order := check.finished;
    forall n ensures Named(steps, n) <==> n in order {
      if n in order { assert n in deps; }
    }
    TopologicalIsAcyclic(deps, order);
    culprit := None;
  }

  /** Load accepts exactly the acceptable playbooks, names a due error otherwise,
      and an accepted playbook has a topological order of its step names. */
  method Load(steps: seq<Step>) returns (r: LoadResult, ghost order: seq<string>)
    ensures r.Accepted? <==> Acceptable(steps)
    ensures r.Rejected? ==> ErrorIsDue(steps, r.error)
    ensures r.Accepted? ==> Topological(LastDeps(steps), order) && forall n :: Named(steps, n) <==> n in order
    ensures r.Accepted? ==> forall i :: 0 <= i < |steps| ==> steps[i].name != "" && steps[i].command != ""
    // The first step in list order without a name or without a command decides the error.
    ensures forall i :: 0 <= i < |steps| && steps[i].name == ""
                        && (forall j :: 0 <= j < i ==> steps[j].name != "" && steps[j].command != "") ==>
              r == Rejected(NoName(i))
    ensures forall i :: 0 <= i < |steps| && steps[i].name != "" && steps[i].command == ""
                        && (forall j :: 0 <= j < i ==> steps[j].name != "" && steps[j].command != "") ==>
              r == Rejected(NoCommand(steps[i].name))
    // Otherwise the first dependency in list order that is the name of no step.
    ensures forall i, k :: 0 <= i < |steps| && 0 <= k < |steps[i].dependsOn|
                           && (forall j :: 0 <= j < |steps| ==> steps[j].name != "" && steps[j].command != "")
                           && (forall m :: 0 <= m < |steps| ==> steps[m].name != steps[i].dependsOn[k])
                           && KnownBefore(steps, i, k) ==>
              r == Rejected(UnknownDependency(steps[i].name, steps[i].dependsOn[k]))
    ensures steps == [] ==> r == Rejected(NoSteps)
  {
    order := [];
    r := Validate(steps);
    if r.Rejected? {
      return;
    }
    var deps: Graph<string> := map[];
    for i := 0 to |steps|
      invariant deps == LastDeps(steps[..i])
    {
      assert steps[..i + 1][..i] == steps[..i];
      deps := deps[steps[i].name := steps[i].dependsOn];
    }
    assert steps[..|steps|] == steps;
    var culprit;
    culprit, order := Search(steps, deps);
    if culprit.Some? {
      return Rejected(DependencyCycle(culprit.value)), order;
    }
    if |steps| == 0 {
      return Rejected(NoSteps), order;
    }
  }
}
