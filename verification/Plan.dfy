/** The setup part of runPlaybook (cmd/cexec/main.go): which nodes a step applies to,
    which step index a depends_on name resolves to, and the initial counters. */
module Plan {
  import opened Playbook
  import opened Inventory

  /** What the goroutines read: the number of nodes, the applicable nodes of each
      step, and the step indices each step waits for. */
  datatype Plan = Plan(nodes: nat, applicable: seq<set<nat>>, needs: seq<seq<nat>>)

  ghost predicate WellFormed(p: Plan)
  {
    && |p.applicable| == |p.needs|
    && (forall i :: 0 <= i < |p.applicable| ==> forall n :: n in p.applicable[i] ==> n < p.nodes)
    && (forall i, k :: 0 <= i < |p.needs| && 0 <= k < |p.needs[i]| ==> p.needs[i][k] < |p.needs|)
  }

  ghost predicate Matches(n: Node, roles: seq<string>)
  {
    exists r :: r in roles && r in n.groups
  }

  ghost predicate Applies(n: Node, s: Step)
  {
    s.roles == [] || Matches(n, s.roles)
  }

  method NodeMatchesRoles(n: Node, roles: seq<string>) returns (ok: bool)
    ensures ok <==> exists i, j :: 0 <= i < |roles| && 0 <= j < |n.groups| && n.groups[j] == roles[i]
    ensures ok <==> Matches(n, roles)
  {
    MatchesByIndex(n, roles);
    for i := 0 to |roles|
      invariant forall j :: 0 <= j < i ==> roles[j] !in n.groups
    {
      for k := 0 to |n.groups|
        invariant forall j :: 0 <= j < k ==> n.groups[j] != roles[i]
      {
        if n.groups[k] == roles[i] {
          assert roles[i] in roles && roles[i] in n.groups;
          return true;
        }
      }
    }
    return false;
  }

  lemma MatchesByIndex(n: Node, roles: seq<string>)
    ensures Matches(n, roles) <==>
            exists i, j :: 0 <= i < |roles| && 0 <= j < |n.groups| && n.groups[j] == roles[i]
  {
    if r :| r in roles && r in n.groups {
      var i :| 0 <= i < |roles| && roles[i] == r;
      var j :| 0 <= j < |n.groups| && n.groups[j] == r;
      assert n.groups[j] == roles[i];
    }
    if i, j :| 0 <= i < |roles| && 0 <= j < |n.groups| && n.groups[j] == roles[i] {
      assert roles[i] in roles && roles[i] in n.groups;
    }
  }

  /** The role filter: a step applies to a node when it names no role, or one of its roles is
      one of the node's groups. */
  lemma ApplicableByIndex(nodes: seq<Node>, steps: seq<Step>, i: nat, n: nat)
    requires i < |steps|
    ensures n in PlanOf(nodes, steps).applicable[i] <==>
            && n < |nodes|
            && (|| steps[i].roles == []
                || exists r, g :: 0 <= r < |steps[i].roles| && 0 <= g < |nodes[n].groups|
                                  && nodes[n].groups[g] == steps[i].roles[r])
  {
    assert PlanOf(nodes, steps).applicable[i] == ApplicableTo(nodes, steps[i]);
    if n < |nodes| { MatchesByIndex(nodes[n], steps[i].roles); }
  }

  /** stepIdx: the last step of that name; a missing key reads as zero, as in Go. */
  function StepIndex(steps: seq<Step>, name: string): (i: nat)
    ensures steps != [] ==> i < |steps|
  {
    if steps == [] then 0
    else if steps[|steps| - 1].name == name then |steps| - 1
    else StepIndex(steps[..|steps| - 1], name)
  }

  lemma {:induction false} StepIndexIsLast(steps: seq<Step>, name: string, i: nat)
    requires i < |steps| && steps[i].name == name
    ensures i <= StepIndex(steps, name) < |steps| && steps[StepIndex(steps, name)].name == name
  {
    if steps[|steps| - 1].name != name {
      var init := steps[..|steps| - 1];
      StepIndexIsLast(init, name, i);
    }
  }

  ghost function ApplicableTo(nodes: seq<Node>, s: Step): set<nat>
  {
    set n | 0 <= n < |nodes| && Applies(nodes[n], s)
  }

  function Resolved(steps: seq<Step>, names: seq<string>): (r: seq<nat>)
  {
    seq(|names|, k requires 0 <= k < |names| => StepIndex(steps, names[k]))
  }

  ghost function PlanOf(nodes: seq<Node>, steps: seq<Step>): (p: Plan)
    ensures WellFormed(p) && |p.needs| == |steps| && p.nodes == |nodes|
  {
    Plan(|nodes|,
         seq(|steps|, i requires 0 <= i < |steps| => ApplicableTo(nodes, steps[i])),
         seq(|steps|, i requires 0 <= i < |steps| => Resolved(steps, steps[i].dependsOn)))
  }

  /** The loops that fill stepIdx, pending and signals. `closed[i]` holds the number
      of times signals[i] has been closed. */
  method Setup(nodes: seq<Node>, steps: seq<Step>)
    returns (stepIdx: map<string, nat>, pending: seq<int>, closed: seq<nat>)
    ensures forall s :: Named(steps, s) <==> s in stepIdx
    ensures forall s :: s in stepIdx ==> stepIdx[s] == StepIndex(steps, s)
    ensures |pending| == |closed| == |steps|
    ensures forall i :: 0 <= i < |steps| ==> pending[i] == |PlanOf(nodes, steps).applicable[i]|
    ensures forall i :: 0 <= i < |steps| ==> closed[i] == if PlanOf(nodes, steps).applicable[i] == {} then 1 else 0
  {
    stepIdx := map[];
    for i := 0 to |steps|
      invariant forall s :: s in stepIdx <==> Named(steps[..i], s)
      invariant forall s :: s in stepIdx ==> stepIdx[s] == StepIndex(steps[..i], s)
    {
      assert steps[..i + 1][..i] == steps[..i];
      forall s ensures Named(steps[..i + 1], s) <==> Named(steps[..i], s) || s == steps[i].name {
        NamedGrows(steps[..i], steps[i], s);
        assert steps[..i + 1] == steps[..i] + [steps[i]];
      }
      stepIdx := stepIdx[steps[i].name := i];
    }
    assert steps[..|steps|] == steps;
    pending, closed := [], [];
    for i := 0 to |steps|
      invariant |pending| == |closed| == i
      invariant forall j :: 0 <= j < i ==> pending[j] == |ApplicableTo(nodes, steps[j])|
      invariant forall j :: 0 <= j < i ==> closed[j] == if ApplicableTo(nodes, steps[j]) == {} then 1 else 0
    {
      var count := CountApplicable(nodes, steps[i]);
      pending := pending + [count];
      closed := closed + [if count == 0 then 1 else 0];
    }
  }

  lemma NamedGrows(init: seq<Step>, s: Step, name: string)
    ensures Named(init + [s], name) <==> Named(init, name) || name == s.name
  {
    if Named(init, name) {
      var i :| 0 <= i < |init| && init[i].name == name;
      assert (init + [s])[i].name == name;
    }
    if name == s.name {
      assert (init + [s])[|init|].name == name;
    }
  }

  /** The counting loop of one step. */
  method CountApplicable(nodes: seq<Node>, s: Step) returns (count: nat)
    ensures count == |ApplicableTo(nodes, s)|
  {
    count := 0;
    ghost var found: set<nat> := {};
    for n := 0 to |nodes|
      invariant found == set m | 0 <= m < n && Applies(nodes[m], s)
      invariant count == |found|
    {
      var matches := NodeMatchesRoles(nodes[n], s.roles);
      if |s.roles| == 0 || matches {
        count := count + 1;
        found := found + {n};
      }
    }
    assert found == ApplicableTo(nodes, s);
  }
}
