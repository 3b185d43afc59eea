/** A dependency that failed releases its dependents like one that succeeded. */
module RunnerFailure {
  import opened Runner
  import opened RunnerSafety
  import opened RunnerLiveness
  import opened RunnerCache
  import State

  /** Nothing is cached, and every execution so far has failed. */
  ghost predicate AllFailed(c: Config, w: World)
    requires Valid(c)
  {
    && !w.cancelled
    && (c.force || w.mem == map[])
    && (forall n :: 0 <= n < |w.threads| ==> FailedSoFar(w.threads[n]))
    && (forall r :: r in w.sent ==> r.outcome == Ran(false))
  }

  predicate FailedSoFar(t: Thread)
  {
    !t.pc.Mark? && (t.pc.Send? ==> t.pc.outcome == Ran(false))
  }

  lemma MoveFails(c: Config, w: World, n: nat, m: Move)
    requires Valid(c) && AllFailed(c, w) && MoveEnabled(c, w, n, m) && m != Run(true)
    ensures FailedSoFar(Moved(c, w, n, m)) && !m.Record?
  {
    assert FailedSoFar(w.threads[n]);
  }

  lemma MemoryAfter(c: Config, w: World, a: Action)
    requires Valid(c) && Enabled(c, w, a)
    ensures !(a.Worker? && a.move.Record?) ==> Apply(c, w, a).mem == w.mem
    ensures !a.Cancel? ==> Apply(c, w, a).cancelled == w.cancelled
  {
    hide Moved, AfterMove, MoveEnabled;
    if a.Worker? { WorkerLeaves(c, w, a.node, a.move); }
  }

  lemma FailingStep(c: Config, w: World, a: Action)
    requires Valid(c) && Sized(c, w) && AllFailed(c, w) && Enabled(c, w, a)
    requires !a.Cancel? && !(a.Worker? && a.move == Run(true))
    ensures AllFailed(c, Apply(c, w, a))
  {
    ThreadsAfter(c, w, a);
    SentAfter(c, w, a);
    MemoryAfter(c, w, a);
    if a.Worker? {
      assert FailedSoFar(w.threads[a.node]);
      MoveFails(c, w, a.node, a.move);
    }
    hide Apply, Enabled, MoveEnabled, Moved;
    var w' := Apply(c, w, a);
    forall r | r in w'.sent ensures r.outcome == Ran(false) {
      if a.Worker? && a.move.Deliver? {
        SentGrows(w.sent, Result(a.node, w.threads[a.node].step, w.threads[a.node].pc.outcome), r);
      }
    }
  }

  /** A run in which every execution failed can go on failing until it halts. */
  lemma {:induction false} FailToHalt(c: Config, tr: seq<World>) returns (full: seq<World>)
    requires Valid(c) && IsTrace(c, tr) && AllFailed(c, Last(tr))
    ensures IsTrace(c, full) && Halted(c, Last(full)) && AllFailed(c, Last(full))
    decreases Measure(c, Init(c)) - |tr|
  {
    if Halted(c, Last(tr)) {
      full := tr;
    } else {
      var a :| Enabled(c, Last(tr), a) && !a.Cancel?;
      if a.Worker? && a.move.Run? {
        a := Worker(a.node, Run(false));
      }
      InvAlong(c, tr, |tr| - 1);
      FailingStep(c, Last(tr), a);
      hide AllFailed, Enabled, Apply, Inv, Halted, IsTrace;
      var longer := Extend(c, tr, a);
      full := FailToHalt(c, longer);
    }
  }

  /** Every playbook that can finish has an uncancelled run in which all executions failed
      and yet every applicable pair was executed, each step after the failed ones it
      depends on: "successfully" is not part of the barrier. */
  lemma FailedDependenciesRelease(c: Config) returns (w: World)
    requires Valid(c) && Releasable(c.plan) && (c.force || State.Contents(c.file) == map[])
    ensures Reachable(c, w) && Complete(w) && !w.cancelled && AllFinished(c, w)
    ensures forall n: nat, i: nat :: i < |c.plan.needs| && n in c.plan.applicable[i] ==>
              Result(n, i, Ran(false)) in w.sent
    ensures forall r :: r in w.sent ==> r.outcome == Ran(false)
  {
    var tr := FailToHalt(c, [Init(c)]);
    w := Last(tr);
    ReleasableFinishes(c, tr);
    ExactlyOnce(c, w);
    hide AllFinished, Complete, Reachable, IsTrace;
    forall n: nat, i: nat | i < |c.plan.needs| && n in c.plan.applicable[i] ensures Result(n, i, Ran(false)) in w.sent {
      assert Reported(w, n, i);
      var x :| 0 <= x < |w.sent| && w.sent[x].node == n && w.sent[x].step == i;
      assert w.sent[x] in w.sent && w.sent[x].outcome == Ran(false);
    }
  }
}
