/** When the goroutines of a run all finish. Every run is finite; whether it ends with
    all goroutines through the step list depends on where dependencies point. */
module RunnerLiveness {
  import opened Plan
  import opened Runner
  import opened RunnerSafety
  import Template

  // ---------------------------------------------------------------------------
  // Every run is finite

  ghost function StepsLeft(p: Plan, i: nat): nat
    decreases if i < |p.needs| then |p.needs| - i else 0
  {
    if i >= |p.needs| then 1 else |p.needs[i]| + 11 + StepsLeft(p, i + 1)
  }

  /** How many moves a goroutine can still make, counting three per result it will
      send for the collector. */
  ghost function Work(p: Plan, t: Thread): nat
  {
    if t.pc.Exited? then 0
    else if t.step >= |p.needs| then 1
    else
      StepsLeft(p, t.step + 1) +
      match t.pc
      case Wait(k) => if k <= |p.needs[t.step]| then |p.needs[t.step]| - k + 11 else 11
      case Filter => 10
      case Check => 9
      case Exec(_) => 8
      case Mark(_) => 7
      case Send(_) => 6
      case Decrement => 2
      case _ => 1
  }

  ghost function TotalWork(p: Plan, ts: seq<Thread>): nat
  {
    if ts == [] then 0 else TotalWork(p, ts[..|ts| - 1]) + Work(p, ts[|ts| - 1])
  }

  lemma {:induction false} UpdateWork(p: Plan, ts: seq<Thread>, n: nat, t: Thread)
    requires n < |ts|
    ensures TotalWork(p, ts[n := t]) == TotalWork(p, ts) - Work(p, ts[n]) + Work(p, t)
  {
    var init := ts[..|ts| - 1];
    if n == |ts| - 1 {
      assert ts[n := t][..|ts| - 1] == init;
    } else {
      UpdateWork(p, init, n, t);
      assert ts[n := t][..|ts| - 1] == init[n := t];
    }
  }

  ghost function CollectorWork(w: World): nat
    requires w.taken <= |w.sent|
  {
    3 * (|w.sent| - w.taken) +
    (match w.collector case Receive => 1 case Snapshot => 3 case Write(_) => 2 case Ended => 0) +
    (if w.resultsClosed then 0 else 1) + (if w.cancelled then 0 else 1)
  }

  ghost function Measure(c: Config, w: World): nat
    requires Valid(c) && Sized(c, w)
  {
    TotalWork(c.plan, w.threads) + CollectorWork(w)
  }

  lemma MoveWorks(c: Config, w: World, n: nat, m: Move)
    requires Valid(c) && Shape(c, w) && MoveEnabled(c, w, n, m)
    ensures Work(c.plan, Moved(c, w, n, m)) + (if m.Deliver? then 3 else 0) < Work(c.plan, w.threads[n])
  {
    assert ThreadOk(c, n, w.threads[n]);
  }

  lemma MoveCollects(c: Config, w: World, n: nat, m: Move)
    requires Valid(c) && MoveEnabled(c, w, n, m)
    ensures Sized(c, AfterMove(c, w, n, m))
    ensures AfterMove(c, w, n, m).threads == w.threads[n := Moved(c, w, n, m)]
    ensures CollectorWork(AfterMove(c, w, n, m)) == CollectorWork(w) + if m.Deliver? then 3 else 0
  {
    hide Moved;
  }

  lemma MoveMeasure(c: Config, w: World, n: nat, m: Move)
    requires Valid(c) && Shape(c, w) && MoveEnabled(c, w, n, m)
    ensures Sized(c, AfterMove(c, w, n, m)) && Measure(c, AfterMove(c, w, n, m)) < Measure(c, w)
  {
    MoveWorks(c, w, n, m);
    MoveCollects(c, w, n, m);
    UpdateWork(c.plan, w.threads, n, Moved(c, w, n, m));
    hide AfterMove, MoveEnabled, Moved, TotalWork, Work, CollectorWork;
    assert Measure(c, AfterMove(c, w, n, m)) < Measure(c, w);
  }

  lemma StepWorks(c: Config, w: World, a: Action)
    requires Valid(c) && Shape(c, w) && Enabled(c, w, a)
    ensures Sized(c, Apply(c, w, a)) && Measure(c, Apply(c, w, a)) < Measure(c, w)
  {
    hide AfterMove, MoveEnabled, Work;
    if a.Worker? {
      MoveMeasure(c, w, a.node, a.move);
    } else {
      hide TotalWork;
      assert CollectorWork(Apply(c, w, a)) < CollectorWork(w);
    }
  }

  /** No run takes more steps than the work its first world holds, whatever the
      interleaving, the verdicts and the cancellation. */
  lemma {:induction false} EveryRunIsFinite(c: Config, tr: seq<World>)
    requires Valid(c) && IsTrace(c, tr)
    ensures Sized(c, Last(tr)) && Measure(c, Last(tr)) + |tr| - 1 <= Measure(c, Init(c))
    decreases |tr|
  {
    if |tr| > 1 {
      var k := |tr| - 2;
      TracePrefix(c, tr, k);
      EveryRunIsFinite(c, tr[..k + 1]);
      var a := ActionAt(c, tr, k);
      StepWorks(c, tr[k], a);
    }
  }

  // ---------------------------------------------------------------------------
  // How goroutines and the collector end

  /** Only a cancellation makes a goroutine leave early; the results channel closes after
      all goroutines returned; the collector ends after the last result. */
  ghost predicate Endings(c: Config, w: World)
    requires Valid(c) && Sized(c, w)
  {
    && (forall n :: 0 <= n < |w.threads| && w.threads[n].pc.Exited? && w.threads[n].step < |c.plan.needs| ==>
          w.cancelled)
    && (w.resultsClosed ==> AllExited(w))
    && (w.collector.Ended? ==> w.resultsClosed && w.taken == |w.sent|)
  }

  lemma LeavingMove(c: Config, w: World, n: nat, m: Move)
    requires Valid(c) && Shape(c, w) && MoveEnabled(c, w, n, m)
    ensures !w.threads[n].pc.Exited?
    ensures Moved(c, w, n, m).pc.Exited? && Moved(c, w, n, m).step < |c.plan.needs| ==> w.cancelled
    ensures var w' := AfterMove(c, w, n, m);
            w'.cancelled == w.cancelled && w'.resultsClosed == w.resultsClosed && w'.collector == w.collector
  {
  }

  lemma EndingsStep(c: Config, w: World, a: Action)
    requires Valid(c) && Shape(c, w) && Endings(c, w) && Enabled(c, w, a)
    ensures Sized(c, Apply(c, w, a)) && Endings(c, Apply(c, w, a))
  {
    ThreadsAfter(c, w, a);
    if a.Worker? {
      LeavingMove(c, w, a.node, a.move);
      assert !AllExited(w);
      assert Apply(c, w, a) == AfterMove(c, w, a.node, a.move);
      hide AfterMove, Apply, Enabled, MoveEnabled, Moved, ThreadOk;
      assert Endings(c, Apply(c, w, a));
    }
  }

  lemma {:induction false} EndingsAlong(c: Config, tr: seq<World>, k: nat)
    requires Valid(c) && IsTrace(c, tr) && k < |tr|
    ensures Sized(c, tr[k]) && Endings(c, tr[k])
  {
    if k > 0 {
      EndingsAlong(c, tr, k - 1);
      var a := ActionAt(c, tr, k - 1);
      hide Apply, Enabled, Shape, Endings, Inv, IsTrace;
      EndingsStep(c, tr[k - 1], a);
    }
  }

  /** In a halted world a goroutine has exited or waits for a channel nobody closed. */
  ghost predicate Blocked(c: Config, w: World, t: Thread)
    requires Valid(c) && Sized(c, w)
  {
    && t.pc.Wait? && t.step < |c.plan.needs| && t.pc.dep < |c.plan.needs[t.step]|
    && w.closes[c.plan.needs[t.step][t.pc.dep]] == 0 && !w.cancelled
  }

  /** The move a goroutine that is neither done nor blocked can make. */
  lemma NextMove(c: Config, w: World, n: nat) returns (m: Move)
    requires Valid(c) && Inv(c, w) && n < |w.threads|
    requires !w.threads[n].pc.Exited? && !Blocked(c, w, w.threads[n])
    ensures MoveEnabled(c, w, n, m)
  {
    var t := w.threads[n];
    assert ThreadOk(c, n, t);
    match t.pc {
      case Wait(k) =>
        if t.step == |c.plan.needs| {
          m := Leave;
        } else if k == |c.plan.needs[t.step]| {
          m := EndWait;
        } else {
          m := if w.cancelled then Abandon else PassDependency;
        }
      case Filter => m := RoleFilter;
      case Check =>
        var order := Template.SomeOrder(c.vars);
        m := Lookup(order);
      case Exec(_) => m := Run(true);
      case Mark(_) => m := Record(0);
      case Send(_) =>
        BelowCapacity(c, w, n);
        m := Deliver;
      case Decrement => m := CountDown;
      case Close => m := Signal;
      case Exited => assert false;
    }
  }

  lemma HaltedThread(c: Config, w: World, n: nat)
    requires Valid(c) && Inv(c, w) && Halted(c, w) && n < |w.threads|
    ensures w.threads[n].pc.Exited? || Blocked(c, w, w.threads[n])
  {
    if !w.threads[n].pc.Exited? && !Blocked(c, w, w.threads[n]) {
      var m := NextMove(c, w, n);
      assert Enabled(c, w, Worker(n, m));
    }
  }

  /** Once the goroutines have exited, the collector runs to its end. */
  lemma HaltedCollector(c: Config, w: World)
    requires Valid(c) && Inv(c, w) && Endings(c, w) && Halted(c, w) && AllExited(w)
    ensures Complete(w) && w.resultsClosed && w.taken == |w.sent|
  {
    assert !Enabled(c, w, CloseResults);
    assert !Enabled(c, w, Take);
    assert !Enabled(c, w, TakeSnapshot);
    assert !Enabled(c, w, SaveFail);
    assert !Enabled(c, w, EndCollect);
  }

  // ---------------------------------------------------------------------------
  // Dependencies that are always released

  /** Each dependency lies strictly before its step, or applies to no node at all. */
  ghost predicate Releasable(p: Plan)
    requires WellFormed(p)
  {
    forall i, k :: 0 <= i < |p.needs| && 0 <= k < |p.needs[i]| ==>
      p.needs[i][k] < i || p.applicable[p.needs[i][k]] == {}
  }

  /** Behind a blocked goroutine there is another one, blocked at an earlier step. */
  lemma {:induction false} NobodyBlocked(c: Config, w: World, n: nat)
    requires Valid(c) && Inv(c, w) && Endings(c, w) && Halted(c, w) && Releasable(c.plan) && !w.cancelled
    requires n < |w.threads|
    ensures !Blocked(c, w, w.threads[n])
    decreases w.threads[n].step
  {
    var t := w.threads[n];
    if Blocked(c, w, t) {
      var d := c.plan.needs[t.step][t.pc.dep];
      assert Counter(c, w, d);
      if Closing(w, d) != {} {
        var m :| m in Closing(w, d);
        HaltedThread(c, w, m);
        assert false;
      }
      assert Owing(c, w, d) != {};
      var m :| m in Owing(c, w, d);
      assert d < t.step;
      HaltedThread(c, w, m);
      NobodyBlocked(c, w, m);
    }
  }

  lemma ReleasableFinishes(c: Config, tr: seq<World>)
    requires Valid(c) && IsTrace(c, tr) && Halted(c, Last(tr)) && !Last(tr).cancelled && Releasable(c.plan)
    ensures AllFinished(c, Last(tr)) && Complete(Last(tr))
  {
    var w := Last(tr);
    InvAlong(c, tr, |tr| - 1);
    EndingsAlong(c, tr, |tr| - 1);
    forall n | 0 <= n < |w.threads| ensures Finished(c, w, n) {
      HaltedThread(c, w, n);
      NobodyBlocked(c, w, n);
      assert ThreadOk(c, n, w.threads[n]);
    }
    assert AllExited(w) by {
      forall n | 0 <= n < |w.threads| ensures w.threads[n].pc.Exited? { assert Finished(c, w, n); }
    }
    HaltedCollector(c, w);
  }

  // ---------------------------------------------------------------------------
  // Dependencies that are never released

  /** Step `i` waits for a step that does not come before it and that some node must run. */
  ghost predicate Offends(p: Plan, i: nat, k: nat)
    requires WellFormed(p)
  {
    i < |p.needs| && k < |p.needs[i]| && i <= p.needs[i][k] && p.applicable[p.needs[i][k]] != {}
  }

  ghost predicate Behind(t: Thread, i: nat, k: nat)
  {
    t.step < i || (t.step == i && match t.pc case Wait(d) => d <= k case Exited => true case _ => false)
  }

  ghost predicate AllBehind(c: Config, w: World, i: nat, k: nat)
    requires Valid(c)
  {
    forall n :: 0 <= n < |w.threads| ==> Behind(w.threads[n], i, k)
  }

  lemma NeverReleased(c: Config, w: World, i: nat, k: nat)
    requires Valid(c) && Inv(c, w) && Offends(c.plan, i, k) && AllBehind(c, w, i, k)
    ensures w.closes[c.plan.needs[i][k]] == 0
  {
    var d := c.plan.needs[i][k];
    assert Counter(c, w, d);
    var n :| n in c.plan.applicable[d];
    assert Behind(w.threads[n], i, k);
    assert n in Owing(c, w, d);
  }

  lemma BehindMove(c: Config, w: World, n: nat, m: Move, i: nat, k: nat)
    requires Valid(c) && Shape(c, w) && MoveEnabled(c, w, n, m) && Behind(w.threads[n], i, k)
    requires Offends(c.plan, i, k) && w.closes[c.plan.needs[i][k]] == 0
    ensures Behind(Moved(c, w, n, m), i, k)
  {
    assert ThreadOk(c, n, w.threads[n]);
  }

  lemma BehindStep(c: Config, w: World, a: Action, i: nat, k: nat)
    requires Valid(c) && Shape(c, w) && Enabled(c, w, a) && AllBehind(c, w, i, k)
    requires Offends(c.plan, i, k) && w.closes[c.plan.needs[i][k]] == 0
    ensures AllBehind(c, Apply(c, w, a), i, k)
  {
    ThreadsAfter(c, w, a);
    hide Apply, Enabled, MoveEnabled, Moved, ThreadOk, Behind;
    var w' := Apply(c, w, a);
    forall n | 0 <= n < |w'.threads| ensures Behind(w'.threads[n], i, k) {
      assert Behind(w.threads[n], i, k);
      if a.Worker? && a.node == n {
        BehindMove(c, w, n, a.move, i, k);
      }
    }
  }

  lemma {:induction false} BehindAlong(c: Config, tr: seq<World>, i: nat, k: nat, x: nat)
    requires Valid(c) && IsTrace(c, tr) && Offends(c.plan, i, k) && x < |tr|
    ensures AllBehind(c, tr[x], i, k)
  {
    if x > 0 {
      BehindAlong(c, tr, i, k, x - 1);
      var w, w' := tr[x - 1], tr[x];
      InvAlong(c, tr, x - 1);
      NeverReleased(c, w, i, k);
      var a := ActionAt(c, tr, x - 1);
      BehindStep(c, w, a, i, k);
    }
  }

  /** Nobody ever gets past an offending step, cancelled or not, and the channel it
      waits for is never closed. */
  lemma NobodyPasses(c: Config, w: World, i: nat, k: nat, n: nat)
    requires Valid(c) && Reachable(c, w) && Offends(c.plan, i, k) && n < |w.threads|
    ensures w.threads[n].step <= i && !Started(w.threads[n], i)
    ensures Sized(c, w) && w.closes[c.plan.needs[i][k]] == 0
    ensures !Finished(c, w, n)
  {
    var tr :| IsTrace(c, tr) && Last(tr) == w;
    BehindAlong(c, tr, i, k, |tr| - 1);
    assert Behind(w.threads[n], i, k);
    InvReachable(c, w);
    NeverReleased(c, w, i, k);
  }

  // ---------------------------------------------------------------------------
  // The exact condition

  /** One more step, which leaves less work than before. */
  lemma Extend(c: Config, tr: seq<World>, a: Action) returns (longer: seq<World>)
    requires Valid(c) && IsTrace(c, tr) && Enabled(c, Last(tr), a)
    ensures IsTrace(c, longer) && tr <= longer && |longer| == |tr| + 1 && Last(longer) == Apply(c, Last(tr), a)
    ensures |tr| <= Measure(c, Init(c))
  {
    longer := tr + [Apply(c, Last(tr), a)];
    hide Enabled, Apply;
    assert StepAt(c, longer, |tr| - 1);
    forall i | 0 <= i < |longer| - 1 ensures StepAt(c, longer, i) {
      assert i < |tr| - 1 ==> StepAt(c, tr, i);
    }
    EveryRunIsFinite(c, longer);
  }

  lemma CancelledAfter(c: Config, w: World, a: Action)
    requires Valid(c) && Enabled(c, w, a) && !a.Cancel?
    ensures Apply(c, w, a).cancelled == w.cancelled
  {
    hide Moved, AfterMove, MoveEnabled;
    if a.Worker? { WorkerLeaves(c, w, a.node, a.move); }
  }

  /** Any uncancelled run can be carried on to a halt without cancelling it. */
  lemma {:induction false} RunToHalt(c: Config, tr: seq<World>) returns (full: seq<World>)
    requires Valid(c) && IsTrace(c, tr)
    ensures IsTrace(c, full) && tr <= full && Halted(c, Last(full))
    ensures Last(full).cancelled == Last(tr).cancelled
    decreases Measure(c, Init(c)) - |tr|
  {
    if Halted(c, Last(tr)) {
      full := tr;
    } else {
      var a :| Enabled(c, Last(tr), a) && !a.Cancel?;
      CancelledAfter(c, Last(tr), a);
      hide Enabled, Apply, Halted, IsTrace;
      var longer := Extend(c, tr, a);
      full := RunToHalt(c, longer);
    }
  }

  /** Without cancellation every interleaving ends with all goroutines through the step
      list exactly when all dependencies are releasable. Acyclicity is not the condition. */
  lemma CompletionCondition(c: Config)
    requires Valid(c)
    ensures Releasable(c.plan) <==>
            forall tr :: IsTrace(c, tr) && Halted(c, Last(tr)) && !Last(tr).cancelled ==> AllFinished(c, Last(tr))
  {
    if Releasable(c.plan) {
      forall tr | IsTrace(c, tr) && Halted(c, Last(tr)) && !Last(tr).cancelled ensures AllFinished(c, Last(tr)) {
        ReleasableFinishes(c, tr);
      }
    } else {
      var i, k :| 0 <= i < |c.plan.needs| && 0 <= k < |c.plan.needs[i]|
                  && c.plan.needs[i][k] >= i && c.plan.applicable[c.plan.needs[i][k]] != {};
      var n :| n in c.plan.applicable[c.plan.needs[i][k]];
      var tr := RunToHalt(c, [Init(c)]);
      InvAlong(c, tr, |tr| - 1);
      NobodyPasses(c, Last(tr), i, k, n);
      assert !Finished(c, Last(tr), n);
    }
  }

  /** After a cancellation every goroutine still exits, the results channel closes and the
      collector ends, whatever the playbook. Together with EveryRunIsFinite: always. */
  lemma CancellationDrains(c: Config, tr: seq<World>)
    requires Valid(c) && IsTrace(c, tr) && Last(tr).cancelled && Halted(c, Last(tr))
    ensures AllExited(Last(tr)) && Last(tr).resultsClosed && Complete(Last(tr))
    ensures Last(tr).taken == |Last(tr).sent|
  {
    var w := Last(tr);
    InvAlong(c, tr, |tr| - 1);
    EndingsAlong(c, tr, |tr| - 1);
    forall n | 0 <= n < |w.threads| ensures w.threads[n].pc.Exited? {
      HaltedThread(c, w, n);
    }
    HaltedCollector(c, w);
  }

  /** An uncancelled run whose collector ended went through every step on every node. */
  lemma CompleteMeansFinished(c: Config, w: World)
    requires Valid(c) && Reachable(c, w) && Complete(w)
    ensures AllExited(w) && w.taken == |w.sent|
    ensures !w.cancelled ==> AllFinished(c, w)
  {
    var tr :| IsTrace(c, tr) && Last(tr) == w;
    EndingsAlong(c, tr, |tr| - 1);
    InvReachable(c, w);
    if !w.cancelled {
      forall n | 0 <= n < c.plan.nodes ensures Finished(c, w, n) {
        assert ThreadOk(c, n, w.threads[n]);
      }
    }
  }

  /** With an offending step an uncancelled run never completes: the results channel stays
      open and the program hangs. */
  lemma OffendingRunsHang(c: Config, w: World, i: nat, k: nat)
    requires Valid(c) && Reachable(c, w) && Offends(c.plan, i, k) && !w.cancelled
    ensures !Complete(w) && !AllExited(w)
  {
    var n :| n in c.plan.applicable[c.plan.needs[i][k]];
    InvReachable(c, w);
    NobodyPasses(c, w, i, k, n);
    var tr :| IsTrace(c, tr) && Last(tr) == w;
    EndingsAlong(c, tr, |tr| - 1);
    assert !w.threads[n].pc.Exited?;
  }
}
