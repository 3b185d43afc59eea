/** What Load accepts against what the runner can finish. Load rejects cycles; the
    runner needs dependencies to point backwards in the list. Neither implies the other. */
module PlaybookRuns {
  import opened Digraph
  import opened Playbook
  import opened Plan
  import opened Inventory
  import opened Runner
  import opened RunnerSafety
  import opened RunnerLiveness
  import State

  /** Every depends_on name resolves to an earlier step, or to one no node runs. */
  ghost predicate Releases(nodes: seq<Node>, steps: seq<Step>)
  {
    forall i, k :: 0 <= i < |steps| && 0 <= k < |steps[i].dependsOn| ==>
      var d := StepIndex(steps, steps[i].dependsOn[k]);
      d < i || forall n :: n in nodes ==> !Applies(n, steps[d])
  }

  lemma PlanReleases(nodes: seq<Node>, steps: seq<Step>)
    ensures Releasable(PlanOf(nodes, steps)) <==> Releases(nodes, steps)
  {
    var p := PlanOf(nodes, steps);
    forall d | 0 <= d < |steps| ensures p.applicable[d] == {} <==> forall n :: n in nodes ==> !Applies(n, steps[d]) {
      if n :| n in nodes && Applies(n, steps[d]) {
        var x :| 0 <= x < |nodes| && nodes[x] == n;
        assert x in p.applicable[d];
      }
    }
    forall i, k | 0 <= i < |steps| && 0 <= k < |steps[i].dependsOn|
      ensures p.needs[i][k] == StepIndex(steps, steps[i].dependsOn[k]) {}
  }

  /** In terms of the playbook: every uncancelled interleaving carries every node through
      the step list exactly when every dependency is released. */
  lemma PlaybookCompletes(nodes: seq<Node>, steps: seq<Step>, c: Config)
    requires Valid(c) && c.plan == PlanOf(nodes, steps)
    ensures Releases(nodes, steps) <==>
            forall tr :: IsTrace(c, tr) && Halted(c, Last(tr)) && !Last(tr).cancelled ==> AllFinished(c, Last(tr))
  {
    PlanReleases(nodes, steps);
    CompletionCondition(c);
  }

  ghost predicate PointsBack(steps: seq<Step>)
  {
    forall i, k :: 0 <= i < |steps| && 0 <= k < |steps[i].dependsOn| ==> StepIndex(steps, steps[i].dependsOn[k]) < i
  }

  lemma {:induction false} IndexFalls(steps: seq<Step>, p: seq<string>)
    requires PointsBack(steps) && |p| >= 2 && IsPath(LastDeps(steps), p)
    ensures StepIndex(steps, p[|p| - 1]) < StepIndex(steps, p[0])
    decreases |p|
  {
    var u, v := p[|p| - 2], p[|p| - 1];
    LastDepsFrom(steps, u);
    var i :| 0 <= i < |steps| && steps[i].name == u && steps[i].dependsOn == LastDeps(steps)[u]
             && forall j :: i < j < |steps| ==> steps[j].name != u;
    StepIndexIsLast(steps, u, i);
    var k :| 0 <= k < |steps[i].dependsOn| && steps[i].dependsOn[k] == v;
    assert StepIndex(steps, steps[i].dependsOn[k]) < i == StepIndex(steps, u);
    if |p| > 2 {
      IndexFalls(steps, p[..|p| - 1]);
    }
  }

  /** Dependencies that all point backwards make no cycle, even with repeated names: Load
      accepts such a playbook, and its runs finish on any node list. */
  lemma BackwardPlaybooksAreFine(nodes: seq<Node>, steps: seq<Step>)
    requires steps != [] && (forall i :: 0 <= i < |steps| ==> Labelled(steps[i]))
             && AllKnown(steps) && PointsBack(steps)
    ensures Acceptable(steps) && Releases(nodes, steps)
  {
    forall p ensures !IsCycle(LastDeps(steps), p) {
      if IsCycle(LastDeps(steps), p) {
        IndexFalls(steps, p);
      }
    }
  }

  /** Load accepts this playbook, and no run of it on one node ever gets anywhere: the node
      waits at the first step for ever, and only a cancellation ends the run. */
  lemma AcceptedYetStuck(node: Node, vars: map<string, string>, digest: string -> string, force: bool, file: State.File)
    ensures Acceptable(Waiting())
    ensures var c := ConfigFor([node], Waiting(), vars, digest, force, file);
            forall w :: Reachable(c, w) ==> w.sent == [] && !Finished(c, w, 0) && (Complete(w) ==> w.cancelled)
  {
    WaitingOffends(node);
    var c := ConfigFor([node], Waiting(), vars, digest, force, file);
    forall w | Reachable(c, w) ensures w.sent == [] && !Finished(c, w, 0) && (Complete(w) ==> w.cancelled) {
      OffenderSendsNothing(c, w);
    }
  }

  /** Whatever the playbook: when the first step offends nothing is ever executed. */
  lemma OffenderSendsNothing(c: Config, w: World)
    requires Valid(c) && Reachable(c, w) && Offends(c.plan, 0, 0) && c.plan.nodes >= 1
    ensures w.sent == [] && !Finished(c, w, 0) && (Complete(w) ==> w.cancelled)
  {
    assert Sized(c, w) by { InvReachable(c, w); assert Shape(c, w); }
    NobodyPasses(c, w, 0, 0, 0);
    if !w.cancelled { OffendingRunsHang(c, w, 0, 0); }
    if w.sent != [] {
      var n := SenderHasStarted(c, w);
      NobodyPasses(c, w, 0, 0, n);
    }
  }

  /** Whoever sent a result has started the first step. */
  lemma SenderHasStarted(c: Config, w: World) returns (n: nat)
    requires Valid(c) && Reachable(c, w) && w.sent != []
    ensures n < |w.threads| && (w.threads[n].step > 0 || Started(w.threads[n], 0))
  {
    InvReachable(c, w);
    n := w.sent[0].node;
    assert Due(c, w, w.sent[0].node, w.sent[0].step);
  }

  /** "a" first, waiting for "b" after it. */
  function Waiting(): seq<Step>
  {
    [Step("a", "x", false, [], ["b"]), Step("b", "y", false, [], [])]
  }

  lemma WaitingOffends(node: Node)
    ensures Acceptable(Waiting()) && !Releases([node], Waiting()) && Offends(PlanOf([node], Waiting()), 0, 0)
  {
    var a, b := Step("a", "x", false, [], ["b"]), Step("b", "y", false, [], []);
    var steps := [a, b];
    assert steps[..1] == [a] && [a][..0] == [];
    assert LastDeps([a]) == map["a" := ["b"]];
    var g := LastDeps(steps);
    assert g == map["a" := ["b"], "b" := []];
    var order := ["b", "a"];
    assert order[..1] == ["b"] && ["b"][..0] == [];
    assert Topological(g, ["b"]);
    assert Topological(g, order);
    TopologicalIsAcyclic(g, order);
    assert steps[1].name == "b";
    assert Named(steps, "b");
    assert StepIndex(steps, "b") == 1;
    assert steps[0].dependsOn[0] == "b";
    assert Applies(node, b);
    assert 0 in PlanOf([node], steps).applicable[1];
    assert !Releases([node], steps) by {
      assert node in [node];
    }
  }

  /** Load rejects this playbook, although every uncancelled run of it would finish when no
      node has the role of its steps. */
  lemma RejectedYetFinishes(node: Node, vars: map<string, string>, digest: string -> string,
                            force: bool, file: State.File)
    requires "gpu" !in node.groups
    ensures !Acceptable(Circular())
    ensures var c := ConfigFor([node], Circular(), vars, digest, force, file);
            forall tr :: IsTrace(c, tr) && Halted(c, Last(tr)) && !Last(tr).cancelled ==>
              AllFinished(c, Last(tr)) && Complete(Last(tr))
  {
    CircularReleases(node);
    PlanReleases([node], Circular());
    var c := ConfigFor([node], Circular(), vars, digest, force, file);
    forall tr | IsTrace(c, tr) && Halted(c, Last(tr)) && !Last(tr).cancelled
      ensures AllFinished(c, Last(tr)) && Complete(Last(tr))
    {
      ReleasableFinishes(c, tr);
    }
  }

  /** Two steps waiting for each other. */
  function Circular(): seq<Step>
  {
    [Step("a", "x", false, ["gpu"], ["b"]), Step("b", "y", false, ["gpu"], ["a"])]
  }

  lemma CircularReleases(node: Node)
    requires "gpu" !in node.groups
    ensures !Acceptable(Circular()) && Releases([node], Circular())
  {
    var a, b := Step("a", "x", false, ["gpu"], ["b"]), Step("b", "y", false, ["gpu"], ["a"]);
    var steps := [a, b];
    assert steps[..1] == [a] && [a][..0] == [];
    assert LastDeps([a]) == map["a" := ["b"]];
    var g := LastDeps(steps);
    assert g["a"] == ["b"] && g["b"] == ["a"];
    var p := ["a", "b", "a"];
    assert p[..2] == ["a", "b"] && ["a", "b"][..1] == ["a"];
    assert IsPath(g, ["a"]);
    assert IsPath(g, ["a", "b"]);
    assert IsCycle(g, p);
    forall r | r in a.roles ensures r !in node.groups { assert r == "gpu"; }
    assert !Matches(node, a.roles) && !Matches(node, b.roles);
    forall n | n in [node] ensures !Applies(n, a) && !Applies(n, b) {}
  }

  /** Repeating a name is no defect: adding a step of a known name to an accepted playbook
      gives an accepted one exactly when the step itself is in order and the dependency map
      with its entry replaced has no cycle. The name then resolves to the added step, every
      other name to what it did. */
  lemma RepeatedNamesAreAccepted(steps: seq<Step>, s: Step)
    requires Acceptable(steps) && Named(steps, s.name)
    ensures Acceptable(steps + [s]) <==>
            && Labelled(s) && (forall k :: 0 <= k < |s.dependsOn| ==> Named(steps, s.dependsOn[k]))
            && !Cyclic(LastDeps(steps)[s.name := s.dependsOn])
    ensures forall n :: StepIndex(steps + [s], n) == if n == s.name then |steps| else StepIndex(steps, n)
  {
    hide Named, Cyclic, Labelled, AllKnown, StepIndex;
    AppendedStep(steps, s);
    forall n ensures Named(steps + [s], n) <==> Named(steps, n) { NamedGrows(steps, s, n); }
    KnownGrows(steps, s);
    LabelledGrows(steps, s);
    hide LastDeps;
  }

  lemma AppendedStep(steps: seq<Step>, s: Step)
    ensures LastDeps(steps + [s]) == LastDeps(steps)[s.name := s.dependsOn]
    ensures forall n :: StepIndex(steps + [s], n) == if n == s.name then |steps| else StepIndex(steps, n)
  {
    var all := steps + [s];
    assert all[..|all| - 1] == steps;
  }

  lemma LabelledGrows(steps: seq<Step>, s: Step)
    requires forall i :: 0 <= i < |steps| ==> Labelled(steps[i])
    ensures (forall i :: 0 <= i < |steps + [s]| ==> Labelled((steps + [s])[i])) <==> Labelled(s)
  {
    hide Labelled;
    var all := steps + [s];
    assert all[|steps|] == s;
    assert forall i :: 0 <= i < |steps| ==> all[i] == steps[i];
  }

  lemma KnownGrows(steps: seq<Step>, s: Step)
    requires AllKnown(steps) && forall n :: Named(steps + [s], n) <==> Named(steps, n)
    ensures AllKnown(steps + [s]) <==> forall k :: 0 <= k < |s.dependsOn| ==> Named(steps, s.dependsOn[k])
  {
    hide Named;
    var all := steps + [s];
    forall i, k | 0 <= i < |steps| && 0 <= k < |steps[i].dependsOn| ensures Named(all, all[i].dependsOn[k]) {
      assert Named(steps, steps[i].dependsOn[k]);
    }
    if AllKnown(all) {
      forall k | 0 <= k < |s.dependsOn| ensures Named(steps, s.dependsOn[k]) {
        assert Named(all, all[|steps|].dependsOn[k]);
      }
    }
  }

  /** So a copy of a step at the end of the list passes the loader; and when another step
      depends on that name and some node runs the copy, the runs can no longer finish. */
  lemma CopiedDependencyHangs(nodes: seq<Node>, steps: seq<Step>, s: Step, i: nat, k: nat)
    requires Acceptable(steps) && Labelled(s) && s.name in LastDeps(steps) && s.dependsOn == LastDeps(steps)[s.name]
    requires i < |steps| && k < |steps[i].dependsOn| && steps[i].dependsOn[k] == s.name
    requires exists n :: n in nodes && Applies(n, s)
    ensures Acceptable(steps + [s]) && !Releases(nodes, steps + [s])
  {
    LastDepsKeys(steps);
    LastDepsFrom(steps, s.name);
    var j :| 0 <= j < |steps| && steps[j].name == s.name && steps[j].dependsOn == s.dependsOn;
    forall m | 0 <= m < |s.dependsOn| ensures Named(steps, s.dependsOn[m]) {
      assert Named(steps, steps[j].dependsOn[m]);
    }
    assert LastDeps(steps)[s.name := s.dependsOn] == LastDeps(steps);
    RepeatedNamesAreAccepted(steps, s);
    var all := steps + [s];
    assert all[i].dependsOn[k] == s.name && all[StepIndex(all, s.name)] == s;
  }

  /** Two steps may share a name; the later one answers to it. */
  lemma DuplicateNamesAreAccepted()
    ensures var steps := [Step("a", "x", false, [], []), Step("a", "y", false, [], [])];
            Acceptable(steps) && StepIndex(steps, "a") == 1
  {
    var a, b := Step("a", "x", false, [], []), Step("a", "y", false, [], []);
    var steps := [a, b];
    assert steps[..1] == [a] && [a][..0] == [];
    assert LastDeps([a]) == map["a" := []];
    var g := LastDeps(steps);
    assert g == map["a" := []];
    assert Topological(g, ["a"]);
    TopologicalIsAcyclic(g, ["a"]);
    assert steps[0].dependsOn == [] && steps[1].dependsOn == [];
  }
}
