/** What the absence of cycles gives the runner: an order of the steps in which every run
    finishes. The loader finds that order and does not use it. */
module PlaybookOrder {
  import opened Digraph
  import opened Playbook
  import opened Plan
  import opened Inventory
  import opened PlaybookRuns
  import opened Runner
  import opened RunnerLiveness

  ghost predicate UniqueSteps(steps: seq<Step>)
  {
    forall i, j :: 0 <= i < j < |steps| ==> steps[i].name != steps[j].name
  }

  /** The same steps, each once. */
  ghost predicate Reorders(xs: seq<Step>, steps: seq<Step>)
  {
    UniqueSteps(xs) && forall s :: s in xs <==> s in steps
  }

  /** The steps in the order of their names. */
  function InOrder(steps: seq<Step>, order: seq<string>): (xs: seq<Step>)
    requires steps != []
    ensures |xs| == |order|
  {
    seq(|order|, i requires 0 <= i < |order| => steps[StepIndex(steps, order[i])])
  }

  lemma IndexIsPlace(steps: seq<Step>, i: nat)
    requires UniqueSteps(steps) && i < |steps|
    ensures StepIndex(steps, steps[i].name) == i
  {
    StepIndexIsLast(steps, steps[i].name, i);
  }

  lemma DepsAtPlace(steps: seq<Step>, i: nat)
    requires UniqueSteps(steps) && i < |steps|
    ensures steps[i].name in LastDeps(steps) && LastDeps(steps)[steps[i].name] == steps[i].dependsOn
  {
    LastDepsKeys(steps);
    assert Named(steps, steps[i].name);
    LastDepsFrom(steps, steps[i].name);
  }

  lemma SameNames(xs: seq<Step>, steps: seq<Step>, name: string)
    requires forall s :: s in xs <==> s in steps
    ensures Named(xs, name) <==> Named(steps, name)
  {
    if i :| 0 <= i < |xs| && xs[i].name == name { NameOf(steps, xs[i]); }
    if i :| 0 <= i < |steps| && steps[i].name == name { NameOf(xs, steps[i]); }
  }

  lemma PlaceOf(steps: seq<Step>, name: string) returns (i: nat)
    requires Named(steps, name)
    ensures i < |steps| && steps[i].name == name
  {
    i :| 0 <= i < |steps| && steps[i].name == name;
  }

  lemma NameOf(steps: seq<Step>, s: Step)
    requires s in steps
    ensures Named(steps, s.name)
  {
    var i :| 0 <= i < |steps| && steps[i] == s;
  }

  lemma SameKnown(xs: seq<Step>, steps: seq<Step>)
    requires (forall s :: s in xs <==> s in steps) && AllKnown(steps)
    ensures AllKnown(xs)
  {
    forall i, k | 0 <= i < |xs| && 0 <= k < |xs[i].dependsOn| ensures Named(xs, xs[i].dependsOn[k]) {
      assert xs[i] in xs && xs[i] in steps;
      var j :| 0 <= j < |steps| && steps[j] == xs[i];
      SameNames(xs, steps, steps[j].dependsOn[k]);
    }
  }

  /** The dependency map does not depend on the order of the steps. */
  lemma SameDeps(xs: seq<Step>, steps: seq<Step>)
    requires Reorders(xs, steps) && UniqueSteps(steps)
    ensures LastDeps(xs) == LastDeps(steps)
  {
    LastDepsKeys(xs);
    LastDepsKeys(steps);
    forall n ensures n in LastDeps(xs) <==> n in LastDeps(steps) { SameNames(xs, steps, n); }
    forall n | n in LastDeps(xs) ensures LastDeps(xs)[n] == LastDeps(steps)[n] {
      assert Named(xs, n);
      var i := PlaceOf(xs, n);
      assert xs[i] in xs && xs[i] in steps;
      var j :| 0 <= j < |steps| && steps[j] == xs[i];
      DepsAtPlace(xs, i);
      DepsAtPlace(steps, j);
    }
  }

  /** `order` is a topological order of the step names, as Load leaves one. */
  ghost predicate OrderOf(steps: seq<Step>, order: seq<string>)
  {
    Topological(LastDeps(steps), order) && forall n :: Named(steps, n) <==> n in order
  }

  lemma StepAtPlace(steps: seq<Step>, order: seq<string>, i: nat)
    requires steps != [] && OrderOf(steps, order) && i < |order|
    ensures InOrder(steps, order)[i] in steps && InOrder(steps, order)[i].name == order[i]
  {
    assert Named(steps, order[i]);
    var j := PlaceOf(steps, order[i]);
    StepIndexIsLast(steps, order[i], j);
  }

  lemma InOrderReorders(steps: seq<Step>, order: seq<string>)
    requires steps != [] && UniqueSteps(steps) && OrderOf(steps, order)
    ensures Reorders(InOrder(steps, order), steps)
  {
    var xs := InOrder(steps, order);
    forall i, j | 0 <= i < j < |xs| ensures xs[i].name != xs[j].name {
      PlaceInOrder(LastDeps(steps), order, j);
      StepAtPlace(steps, order, i);
      StepAtPlace(steps, order, j);
      assert order[..j][i] == order[i];
    }
    forall s ensures s in xs <==> s in steps {
      if s in xs {
        var i :| 0 <= i < |xs| && xs[i] == s;
        StepAtPlace(steps, order, i);
      }
      if s in steps {
        var j :| 0 <= j < |steps| && steps[j] == s;
        NameOf(steps, s);
        var i :| 0 <= i < |order| && order[i] == s.name;
        IndexIsPlace(steps, j);
        assert xs[i] == s;
      }
    }
  }

  lemma InOrderPointsBack(steps: seq<Step>, order: seq<string>)
    requires steps != [] && UniqueSteps(steps) && OrderOf(steps, order)
    ensures PointsBack(InOrder(steps, order))
  {
    var xs, g := InOrder(steps, order), LastDeps(steps);
    InOrderReorders(steps, order);
    SameDeps(xs, steps);
    forall i, k | 0 <= i < |xs| && 0 <= k < |xs[i].dependsOn| ensures StepIndex(xs, xs[i].dependsOn[k]) < i {
      StepAtPlace(steps, order, i);
      PlaceInOrder(g, order, i);
      DepsAtPlace(xs, i);
      var d := xs[i].dependsOn[k];
      assert d in g[order[i]];
      var j :| 0 <= j < i && order[..i][j] == d;
      StepAtPlace(steps, order, j);
      IndexIsPlace(xs, j);
    }
  }

  /** The steps of an accepted playbook with unique names, listed in the order Load leaves,
      are an accepted playbook again, and all its uncancelled runs finish, on any node list. */
  lemma LoadOrderFinishes(steps: seq<Step>, order: seq<string>, nodes: seq<Node>, c: Config)
    requires Acceptable(steps) && UniqueSteps(steps) && OrderOf(steps, order)
    requires Valid(c) && c.plan == PlanOf(nodes, InOrder(steps, order))
    ensures Reorders(InOrder(steps, order), steps) && Acceptable(InOrder(steps, order))
    ensures forall tr :: IsTrace(c, tr) && Halted(c, Last(tr)) && !Last(tr).cancelled ==>
              AllFinished(c, Last(tr)) && Complete(Last(tr))
  {
    var xs := InOrder(steps, order);
    InOrderReorders(steps, order);
    InOrderPointsBack(steps, order);
    SameKnown(xs, steps);
    assert xs != [] by { NameOf(steps, steps[0]); }
    forall i | 0 <= i < |xs| ensures Labelled(xs[i]) {
      assert xs[i] in xs && xs[i] in steps;
      var j :| 0 <= j < |steps| && steps[j] == xs[i];
    }
    BackwardPlaybooksAreFine(nodes, xs);
    PlanReleases(nodes, xs);
    forall tr | IsTrace(c, tr) && Halted(c, Last(tr)) && !Last(tr).cancelled
      ensures AllFinished(c, Last(tr)) && Complete(Last(tr))
    {
      ReleasableFinishes(c, tr);
    }
  }

  ghost predicate AllApply(nodes: seq<Node>, steps: seq<Step>)
  {
    forall s :: s in steps ==> exists n :: n in nodes && Applies(n, s)
  }

  lemma ReleasesPointsBack(nodes: seq<Node>, xs: seq<Step>)
    requires AllApply(nodes, xs) && Releases(nodes, xs)
    ensures PointsBack(xs)
  {
    forall i, k | 0 <= i < |xs| && 0 <= k < |xs[i].dependsOn| ensures StepIndex(xs, xs[i].dependsOn[k]) < i {
      var d := StepIndex(xs, xs[i].dependsOn[k]);
      assert xs[d] in xs;
    }
  }

  lemma BackwardIsAcyclic(steps: seq<Step>)
    requires PointsBack(steps)
    ensures !Cyclic(LastDeps(steps))
  {
    forall p ensures !IsCycle(LastDeps(steps), p) {
      if IsCycle(LastDeps(steps), p) {
        IndexFalls(steps, p);
      }
    }
  }

  /** When every step applies to some node, the loader rejects exactly the playbooks that no
      order of their steps would save. */
  lemma AcyclicWhenSomeOrderFinishes(nodes: seq<Node>, steps: seq<Step>)
    requires UniqueSteps(steps) && AllKnown(steps) && AllApply(nodes, steps)
    ensures !Cyclic(LastDeps(steps)) <==> exists xs :: Reorders(xs, steps) && Releases(nodes, xs)
  {
    if !Cyclic(LastDeps(steps)) {
      if steps == [] {
        assert Reorders(steps, steps) && Releases(nodes, steps);
      } else {
        var order := SomeOrderOf(steps);
        var xs := InOrder(steps, order);
        InOrderReorders(steps, order);
        InOrderPointsBack(steps, order);
        assert Releases(nodes, xs);
      }
    }
    if xs :| Reorders(xs, steps) && Releases(nodes, xs) {
      SameDeps(xs, steps);
      ReleasesPointsBack(nodes, xs);
      BackwardIsAcyclic(xs);
    }
  }

  lemma SomeOrderOf(steps: seq<Step>) returns (order: seq<string>)
    requires AllKnown(steps) && !Cyclic(LastDeps(steps))
    ensures OrderOf(steps, order)
  {
    KnownGraphIsClosed(steps);
    LastDepsKeys(steps);
    order := OrderGoesOn(LastDeps(steps), []);
  }
}
