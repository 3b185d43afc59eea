/** Invariants of the playbook runner under every interleaving, cancellation included. */
module RunnerSafety {
  import opened Plan
  import opened Runner
  import Digraph

  // ---------------------------------------------------------------------------
  // Shape of the threads

  ghost predicate ThreadOk(c: Config, n: nat, t: Thread)
    requires Valid(c)
  {
    if t.step >= |c.plan.needs| then
      t.step == |c.plan.needs| && (t.pc == Wait(0) || t.pc.Exited?)
    else
      match t.pc
      case Wait(k) => k <= |c.plan.needs[t.step]|
      case Filter => true
      case Exited => true
      case _ => n in c.plan.applicable[t.step]
  }

  ghost predicate Shape(c: Config, w: World)
    requires Valid(c)
  {
    Sized(c, w) && forall n :: 0 <= n < |w.threads| ==> ThreadOk(c, n, w.threads[n])
  }

  lemma ShapeInit(c: Config)
    requires Valid(c)
    ensures Shape(c, Init(c))
  {
  }

  lemma MovedOk(c: Config, w: World, n: nat, m: Move)
    requires Valid(c) && Shape(c, w) && MoveEnabled(c, w, n, m)
    ensures ThreadOk(c, n, Moved(c, w, n, m))
  {
    assert ThreadOk(c, n, w.threads[n]);
  }

  /** What a worker leaves alone: everything but its own thread, the counters, the channels,
      the cache and the results, to which it may add. */
  ghost predicate Undisturbed(w: World, w': World)
  {
    && w'.taken == w.taken && w'.resultsClosed == w.resultsClosed && w'.cancelled == w.cancelled
    && w'.disk == w.disk && w'.collector == w.collector && w'.saveFailed == w.saveFailed
    && w'.succeeded == w.succeeded && w'.failed == w.failed
    && w.sent <= w'.sent
  }

  lemma WorkerLeaves(c: Config, w: World, n: nat, m: Move)
    requires Valid(c) && MoveEnabled(c, w, n, m)
    ensures var w' := AfterMove(c, w, n, m);
            && Undisturbed(w, w') && Sized(c, w') && w'.threads == w.threads[n := Moved(c, w, n, m)]
            && (!m.Record? ==> w'.mem == w.mem)
  {
    hide Moved;
  }

  /** What an action does to the threads: one worker moves, or none. */
  lemma ThreadsAfter(c: Config, w: World, a: Action)
    requires Valid(c) && Sized(c, w) && Enabled(c, w, a)
    ensures Sized(c, Apply(c, w, a))
    ensures a.Worker? ==> a.node < |w.threads| && MoveEnabled(c, w, a.node, a.move)
                          && Apply(c, w, a).threads == w.threads[a.node := Moved(c, w, a.node, a.move)]
    ensures !a.Worker? ==> Apply(c, w, a).threads == w.threads
  {
    hide MoveEnabled, Moved, AfterMove;
    if a.Worker? {
      assert MoveEnabled(c, w, a.node, a.move);
      WorkerLeaves(c, w, a.node, a.move);
      MoveHasThread(c, w, a.node, a.move);
    }
  }

  lemma MoveHasThread(c: Config, w: World, n: nat, m: Move)
    requires Valid(c) && MoveEnabled(c, w, n, m)
    ensures Sized(c, w) && n < |w.threads|
  {
  }

  lemma ShapeStep(c: Config, w: World, a: Action)
    requires Valid(c) && Shape(c, w) && Enabled(c, w, a)
    ensures Shape(c, Apply(c, w, a))
  {
    ThreadsAfter(c, w, a);
    if a.Worker? {
      MovedOk(c, w, a.node, a.move);
    }
    hide Apply, Enabled, MoveEnabled, Moved, ThreadOk;
    var w' := Apply(c, w, a);
    forall n | 0 <= n < |w'.threads| ensures ThreadOk(c, n, w'.threads[n]) {
      assert ThreadOk(c, n, w.threads[n]);
    }
  }

  // ---------------------------------------------------------------------------
  // Counters and channels

  /** The thread has done its atomic decrement for step `i` (or went past a step
      that does not apply to it). */
  predicate Signalled(t: Thread, i: nat)
  {
    t.step > i || (t.step == i && t.pc.Close?)
  }

  ghost function Owing(c: Config, w: World, i: nat): set<nat>
    requires Valid(c) && i < |c.plan.applicable|
  {
    set n | n in c.plan.applicable[i] && n < |w.threads| && !Signalled(w.threads[n], i)
  }

  ghost function Closing(w: World, i: nat): set<nat>
  {
    set n | 0 <= n < |w.threads| && w.threads[n].step == i && w.threads[n].pc.Close?
  }

  /** pending[i] counts the applicable nodes that have not signalled step i, and
      exactly when it is zero the channel is closed once or one goroutine is about to. */
  ghost predicate Counter(c: Config, w: World, i: nat)
    requires Valid(c) && Sized(c, w) && i < |c.plan.needs|
  {
    && w.pending[i] == |Owing(c, w, i)|
    && w.closes[i] + |Closing(w, i)| == (if w.pending[i] == 0 then 1 else 0)
  }

  ghost predicate Counters(c: Config, w: World)
    requires Valid(c) && Sized(c, w)
  {
    forall i :: 0 <= i < |c.plan.needs| ==> Counter(c, w, i)
  }

  lemma CountersInit(c: Config)
    requires Valid(c)
    ensures Counters(c, Init(c))
  {
    var w := Init(c);
    forall i | 0 <= i < |c.plan.needs| ensures Counter(c, w, i) {
      assert Owing(c, w, i) == c.plan.applicable[i];
      assert Closing(w, i) == {};
    }
  }

  /** Changing a thread without touching its relation to step `i` keeps both sets. */
  lemma SetsUnchanged(c: Config, w: World, w': World, n: nat, i: nat)
    requires Valid(c) && Sized(c, w) && i < |c.plan.needs| && n < |w.threads|
    requires |w'.threads| == |w.threads| && w'.threads == w.threads[n := w'.threads[n]]
    requires Signalled(w'.threads[n], i) == Signalled(w.threads[n], i) || n !in c.plan.applicable[i]
    requires (w'.threads[n].step == i && w'.threads[n].pc.Close?) == (w.threads[n].step == i && w.threads[n].pc.Close?)
    ensures Owing(c, w', i) == Owing(c, w, i) && Closing(w', i) == Closing(w, i)
  {
  }

  lemma CountDownCounter(c: Config, w: World, n: nat)
    requires Valid(c) && Shape(c, w) && Counters(c, w) && MoveEnabled(c, w, n, CountDown)
    ensures Counter(c, AfterMove(c, w, n, CountDown), w.threads[n].step)
  {
    var i := w.threads[n].step;
    var w' := AfterMove(c, w, n, CountDown);
    assert ThreadOk(c, n, w.threads[n]) && Counter(c, w, i);
    assert n in Owing(c, w, i) && |Owing(c, w, i)| >= 1;
    assert |Closing(w, i)| == 0;
    var last := w.pending[i] - 1 == 0;
    var t := if last then At(w.threads[n], Close) else Advance(w.threads[n]);
    assert w'.threads == w.threads[n := t] && w'.pending[i] == w.pending[i] - 1 && w'.closes == w.closes;
    hide AfterMove, MoveEnabled, Moved, ThreadOk, Shape, Counters;
    assert Owing(c, w', i) == Owing(c, w, i) - {n};
    assert Closing(w', i) == if last then {n} else {};
  }

  lemma SignalCounter(c: Config, w: World, n: nat)
    requires Valid(c) && Shape(c, w) && Counters(c, w) && MoveEnabled(c, w, n, Signal)
    ensures Counter(c, AfterMove(c, w, n, Signal), w.threads[n].step)
  {
    var i := w.threads[n].step;
    var w' := AfterMove(c, w, n, Signal);
    assert Counter(c, w, i);
    assert n in Closing(w, i);
    assert Closing(w', i) == Closing(w, i) - {n};
    assert Owing(c, w', i) == Owing(c, w, i);
  }

  lemma MoveCounter(c: Config, w: World, n: nat, m: Move, i: nat)
    requires Valid(c) && Shape(c, w) && Counters(c, w) && MoveEnabled(c, w, n, m) && i < |c.plan.needs|
    ensures Sized(c, AfterMove(c, w, n, m)) && Counter(c, AfterMove(c, w, n, m), i)
  {
    var w', t := AfterMove(c, w, n, m), w.threads[n];
    assert Counter(c, w, i);
    if m.CountDown? && i == t.step {
      CountDownCounter(c, w, n);
    } else if m.Signal? && i == t.step {
      SignalCounter(c, w, n);
    } else {
      assert ThreadOk(c, n, t);
      OtherMove(c, w, n, m, i);
      SetsUnchanged(c, w, w', n, i);
    }
  }

  /** Only the decrement and the close of step `i` itself change who owes or closes it. */
  lemma OtherMove(c: Config, w: World, n: nat, m: Move, i: nat)
    requires Valid(c) && Shape(c, w) && MoveEnabled(c, w, n, m) && i < |c.plan.needs|
    requires !(m.CountDown? && i == w.threads[n].step) && !(m.Signal? && i == w.threads[n].step)
    ensures var t, t' := w.threads[n], Moved(c, w, n, m);
            && (Signalled(t', i) == Signalled(t, i) || n !in c.plan.applicable[i])
            && (t'.step == i && t'.pc.Close?) == (t.step == i && t.pc.Close?)
  {
    assert ThreadOk(c, n, w.threads[n]);
  }

  lemma CountersStep(c: Config, w: World, a: Action)
    requires Valid(c) && Shape(c, w) && Counters(c, w) && Enabled(c, w, a)
    ensures Sized(c, Apply(c, w, a)) && Counters(c, Apply(c, w, a))
  {
    var w' := Apply(c, w, a);
    forall i | 0 <= i < |c.plan.needs| ensures Sized(c, w') && Counter(c, w', i) {
      if a.Worker? {
        MoveCounter(c, w, a.node, a.move, i);
      } else {
        assert Counter(c, w, i);
        assert Owing(c, w', i) == Owing(c, w, i) && Closing(w', i) == Closing(w, i);
      }
    }
    ShapeStep(c, w, a);
  }

  // ---------------------------------------------------------------------------
  // The dependency barrier

  /** The thread has got past the wait for dependency `k` of step `j`. */
  predicate Passed(t: Thread, j: nat, k: nat)
  {
    t.step > j || (t.step == j && match t.pc case Wait(d) => k < d case Exited => false case _ => true)
  }

  ghost predicate Barrier(c: Config, w: World)
    requires Valid(c) && Sized(c, w)
  {
    forall n, j, k ::
      0 <= n < |w.threads| && 0 <= j < |c.plan.needs| && 0 <= k < |c.plan.needs[j]| && Passed(w.threads[n], j, k) ==>
      w.closes[c.plan.needs[j][k]] > 0
  }

  /** A thread gets past a wait only through the select, on a closed channel. */
  lemma PassingMove(c: Config, w: World, n: nat, m: Move, j: nat, k: nat)
    requires Valid(c) && Shape(c, w) && MoveEnabled(c, w, n, m) && j < |c.plan.needs| && k < |c.plan.needs[j]|
    requires Passed(Moved(c, w, n, m), j, k) && !Passed(w.threads[n], j, k)
    ensures w.closes[c.plan.needs[j][k]] > 0
  {
    assert ThreadOk(c, n, w.threads[n]);
  }

  lemma MoveClosesGrow(c: Config, w: World, n: nat, m: Move)
    requires Valid(c) && Sized(c, w) && MoveEnabled(c, w, n, m)
    ensures Sized(c, AfterMove(c, w, n, m))
    ensures forall i :: 0 <= i < |w.closes| ==> w.closes[i] <= AfterMove(c, w, n, m).closes[i]
  {
    hide Moved;
  }

  lemma ClosesGrow(c: Config, w: World, a: Action)
    requires Valid(c) && Sized(c, w) && Enabled(c, w, a)
    ensures Sized(c, Apply(c, w, a)) && forall i :: 0 <= i < |w.closes| ==> w.closes[i] <= Apply(c, w, a).closes[i]
  {
    hide MoveEnabled, Moved, AfterMove;
    if a.Worker? {
      MoveClosesGrow(c, w, a.node, a.move);
    }
  }

  lemma BarrierStep(c: Config, w: World, a: Action)
    requires Valid(c) && Shape(c, w) && Barrier(c, w) && Enabled(c, w, a)
    ensures Sized(c, Apply(c, w, a)) && Barrier(c, Apply(c, w, a))
  {
    ThreadsAfter(c, w, a);
    ClosesGrow(c, w, a);
    hide Apply, Enabled, MoveEnabled, Moved, ThreadOk, Passed;
    var w' := Apply(c, w, a);
    forall n, j, k | 0 <= n < |w'.threads| && 0 <= j < |c.plan.needs| && 0 <= k < |c.plan.needs[j]|
      && Passed(w'.threads[n], j, k)
      ensures w'.closes[c.plan.needs[j][k]] > 0
    {
      if !Passed(w.threads[n], j, k) {
        PassingMove(c, w, n, a.move, j, k);
      }
    }
  }

  // ---------------------------------------------------------------------------
  // Results

  /** The thread has sent its result for step `i` (if the step applies to it). */
  predicate HasSent(t: Thread, i: nat)
  {
    t.step > i || (t.step == i && (t.pc.Decrement? || t.pc.Close?))
  }

  ghost predicate Due(c: Config, w: World, n: nat, i: nat)
    requires Valid(c)
  {
    i < |c.plan.applicable| && n in c.plan.applicable[i] && n < |w.threads| && HasSent(w.threads[n], i)
  }

  ghost predicate Reported(w: World, n: nat, i: nat)
  {
    exists x :: 0 <= x < |w.sent| && w.sent[x].node == n && w.sent[x].step == i
  }

  /** Every result is due, every due result is there, and one node's results come in step order. */
  ghost predicate Results(c: Config, w: World)
    requires Valid(c)
  {
    && (forall x :: 0 <= x < |w.sent| ==> Due(c, w, w.sent[x].node, w.sent[x].step))
    && (forall n: nat, i: nat :: Due(c, w, n, i) ==> Reported(w, n, i))
    && (forall x, y :: 0 <= x < y < |w.sent| && w.sent[x].node == w.sent[y].node ==> w.sent[x].step < w.sent[y].step)
  }

  lemma ResultsStep(c: Config, w: World, a: Action)
    requires Valid(c) && Shape(c, w) && Results(c, w) && Enabled(c, w, a)
    ensures Results(c, Apply(c, w, a))
  {
    var w' := Apply(c, w, a);
    if a.Worker? && a.move.Deliver? {
      DeliverResults(c, w, a.node);
    } else {
      forall n: nat, i: nat ensures Due(c, w', n, i) <==> Due(c, w, n, i) {
        QuietMove(c, w, a, n, i);
      }
      assert w'.sent == w.sent;
      forall n: nat, i: nat | Due(c, w', n, i) ensures Reported(w', n, i) {
        assert Reported(w, n, i);
        var x :| 0 <= x < |w.sent| && w.sent[x].node == n && w.sent[x].step == i;
        assert w'.sent[x] == w.sent[x];
      }
    }
  }

  lemma DeliverDue(c: Config, w: World, n: nat)
    requires Valid(c) && Shape(c, w) && MoveEnabled(c, w, n, Deliver)
    ensures !Due(c, w, n, w.threads[n].step)
    ensures forall m: nat, j: nat ::
              Due(c, AfterMove(c, w, n, Deliver), m, j) <==> Due(c, w, m, j) || (m == n && j == w.threads[n].step)
  {
    assert ThreadOk(c, n, w.threads[n]);
  }

  lemma DeliverResults(c: Config, w: World, n: nat)
    requires Valid(c) && Shape(c, w) && Results(c, w) && MoveEnabled(c, w, n, Deliver)
    ensures Results(c, AfterMove(c, w, n, Deliver))
  {
    var w', r := AfterMove(c, w, n, Deliver), Result(n, w.threads[n].step, w.threads[n].pc.outcome);
    assert ThreadOk(c, n, w.threads[n]) && w'.sent == w.sent + [r];
    DeliverDue(c, w, n);
    hide AfterMove, MoveEnabled, Moved, ThreadOk, Due;
    forall m: nat, j: nat | Due(c, w', m, j) ensures Reported(w', m, j) {
      ReportedGrows(w, w', r, m, j);
    }
    forall x | 0 <= x < |w'.sent| ensures Due(c, w', w'.sent[x].node, w'.sent[x].step) {
      assert x < |w.sent| ==> w'.sent[x] == w.sent[x] && Due(c, w, w.sent[x].node, w.sent[x].step);
    }
    forall x, y | 0 <= x < y < |w'.sent| && w'.sent[x].node == w'.sent[y].node
      ensures w'.sent[x].step < w'.sent[y].step
    {
      assert w'.sent[x] == w.sent[x] && Due(c, w, w.sent[x].node, w.sent[x].step);
      if y < |w.sent| {
        assert w'.sent[y] == w.sent[y];
      } else {
        DueIsEarlier(c, w, n, w.sent[x].step);
      }
    }
  }

  /** What a sending goroutine has sent before belongs to earlier steps. */
  lemma DueIsEarlier(c: Config, w: World, n: nat, i: nat)
    requires Valid(c) && MoveEnabled(c, w, n, Deliver) && Due(c, w, n, i)
    ensures i < w.threads[n].step
  {
  }

  lemma ReportedGrows(w: World, w': World, r: Result, n: nat, i: nat)
    requires w'.sent == w.sent + [r]
    ensures Reported(w, n, i) || (r.node == n && r.step == i) ==> Reported(w', n, i)
  {
    if Reported(w, n, i) {
      var x :| 0 <= x < |w.sent| && w.sent[x].node == n && w.sent[x].step == i;
      assert w'.sent[x] == w.sent[x];
    }
    assert w'.sent[|w.sent|] == r;
  }

  // ---------------------------------------------------------------------------
  // How many results there are

  /** The (node, step) pairs whose result has been sent. */
  ghost function Delivered(c: Config, w: World): set<(nat, nat)>
    requires Valid(c)
  {
    set n: nat, i: nat | n < c.plan.nodes && i < |c.plan.needs| && Due(c, w, n, i) :: (n, i)
  }

  ghost predicate Tally(c: Config, w: World)
    requires Valid(c)
  {
    |w.sent| == |Delivered(c, w)|
  }

  /** Only a send makes a result due. */
  lemma QuietMove(c: Config, w: World, a: Action, n: nat, i: nat)
    requires Valid(c) && Shape(c, w) && Enabled(c, w, a) && !(a.Worker? && a.move.Deliver?)
    ensures Due(c, Apply(c, w, a), n, i) <==> Due(c, w, n, i)
  {
    ThreadsAfter(c, w, a);
    if a.Worker? {
      QuietThread(c, w, a.node, a.move, i);
    }
    hide Apply, Enabled, MoveEnabled, Moved, HasSent, ThreadOk;
    assert Due(c, Apply(c, w, a), n, i) <==> Due(c, w, n, i);
  }

  lemma QuietThread(c: Config, w: World, n: nat, m: Move, i: nat)
    requires Valid(c) && Shape(c, w) && MoveEnabled(c, w, n, m) && !m.Deliver?
    ensures i < |c.plan.needs| && n in c.plan.applicable[i] ==>
              (HasSent(Moved(c, w, n, m), i) <==> HasSent(w.threads[n], i))
  {
    assert ThreadOk(c, n, w.threads[n]);
  }

  lemma DeliverTally(c: Config, w: World, n: nat)
    requires Valid(c) && Shape(c, w) && Tally(c, w) && MoveEnabled(c, w, n, Deliver)
    ensures Tally(c, AfterMove(c, w, n, Deliver))
  {
    var w', i := AfterMove(c, w, n, Deliver), w.threads[n].step;
    DeliverDue(c, w, n);
    assert ThreadOk(c, n, w.threads[n]);
    assert (n, i) !in Delivered(c, w);
    assert Delivered(c, w') == Delivered(c, w) + {(n, i)};
  }

  lemma QuietTally(c: Config, w: World, a: Action)
    requires Valid(c) && Shape(c, w) && Enabled(c, w, a) && !(a.Worker? && a.move.Deliver?)
    ensures Delivered(c, Apply(c, w, a)) == Delivered(c, w)
  {
    forall n: nat, i: nat ensures Due(c, Apply(c, w, a), n, i) <==> Due(c, w, n, i) {
      QuietMove(c, w, a, n, i);
    }
  }

  lemma TallyStep(c: Config, w: World, a: Action)
    requires Valid(c) && Shape(c, w) && Tally(c, w) && Enabled(c, w, a)
    ensures Tally(c, Apply(c, w, a))
  {
    if a.Worker? && a.move.Deliver? {
      DeliverTally(c, w, a.node);
    } else {
      QuietTally(c, w, a);
    }
  }

  /** Sum of the initial pending counters of steps below `m`. */
  ghost function Expected(p: Plan, m: nat): nat
    requires m <= |p.applicable|
  {
    if m == 0 then 0 else Expected(p, m - 1) + |p.applicable[m - 1]|
  }

  ghost function PairsBelow(p: Plan, m: nat): set<(nat, nat)>
    requires WellFormed(p) && m <= |p.applicable|
  {
    set n: nat, i: nat | n < p.nodes && i < m && n in p.applicable[i] :: (n, i)
  }

  lemma {:induction false} PairsCount(p: Plan, m: nat)
    requires WellFormed(p) && m <= |p.applicable|
    ensures |PairsBelow(p, m)| == Expected(p, m)
  {
    if m == 0 {
      assert PairsBelow(p, m) == {};
    } else {
      PairsCount(p, m - 1);
      var i: nat := m - 1;
      var row := set n: nat | n in p.applicable[i] :: (n, i);
      Tagged(p.applicable[i], i, row);
      assert PairsBelow(p, m) == PairsBelow(p, m - 1) + row;
      hide PairsBelow, WellFormed;
      assert row !! PairsBelow(p, m - 1) by { PairsStayBelow(p, m - 1); }
    }
  }

  lemma PairsStayBelow(p: Plan, m: nat)
    requires WellFormed(p) && m <= |p.applicable|
    ensures forall x :: x in PairsBelow(p, m) ==> x.1 < m
  {
  }

  lemma {:induction false} Tagged(s: set<nat>, i: nat, row: set<(nat, nat)>)
    requires row == set n: nat | n in s :: (n, i)
    ensures |row| == |s|
  {
    if s == {} {
      assert row == {};
    } else {
      var x :| x in s;
      var rest := set n: nat | n in s - {x} :: (n, i);
      assert rest == row - {(x, i)};
      assert (x, i) in row;
      Tagged(s - {x}, i, rest);
    }
  }

  lemma {:induction false} ExpectedBound(p: Plan, m: nat)
    requires WellFormed(p) && m <= |p.applicable|
    ensures Expected(p, m) <= p.nodes * m
  {
    if m > 0 {
      ExpectedBound(p, m - 1);
      assert p.nodes * m == p.nodes * (m - 1) + p.nodes;
      RangeSize(p.nodes);
      Digraph.Subset(p.applicable[m - 1], Range(p.nodes));
    }
  }

  ghost function Range(k: nat): set<nat>
  {
    if k == 0 then {} else Range(k - 1) + {k - 1}
  }

  lemma {:induction false} RangeSize(k: nat)
    ensures |Range(k)| == k && forall n: nat :: n in Range(k) <==> n < k
  {
    if k > 0 {
      RangeSize(k - 1);
      assert k - 1 !in Range(k - 1);
    }
  }

  // ---------------------------------------------------------------------------
  // The invariant of every reachable world

  ghost predicate Inv(c: Config, w: World)
    requires Valid(c)
  {
    Shape(c, w) && Counters(c, w) && Barrier(c, w) && Results(c, w) && Tally(c, w)
  }

  lemma InvInit(c: Config)
    requires Valid(c)
    ensures Inv(c, Init(c))
  {
    ShapeInit(c);
    CountersInit(c);
    assert Delivered(c, Init(c)) == {};
  }

  lemma InvStep(c: Config, w: World, w': World)
    requires Valid(c) && Inv(c, w) && Step(c, w, w')
    ensures Inv(c, w')
  {
    var a :| Enabled(c, w, a) && w' == Apply(c, w, a);
    ShapeStep(c, w, a);
    CountersStep(c, w, a);
    BarrierStep(c, w, a);
    ResultsStep(c, w, a);
    TallyStep(c, w, a);
  }

  lemma {:induction false} InvAlong(c: Config, tr: seq<World>, k: nat)
    requires Valid(c) && IsTrace(c, tr) && k < |tr|
    ensures Inv(c, tr[k])
  {
    if k == 0 {
      InvInit(c);
    } else {
      InvAlong(c, tr, k - 1);
      assert StepAt(c, tr, k - 1);
      InvStep(c, tr[k - 1], tr[k]);
    }
  }

  /** The action between two worlds of a run, which starts from a well-shaped world. */
  lemma ActionAt(c: Config, tr: seq<World>, k: nat) returns (a: Action)
    requires Valid(c) && IsTrace(c, tr) && k + 1 < |tr|
    ensures Shape(c, tr[k]) && Enabled(c, tr[k], a) && tr[k + 1] == Apply(c, tr[k], a)
  {
    InvAlong(c, tr, k);
    assert StepAt(c, tr, k);
    a :| Enabled(c, tr[k], a) && tr[k + 1] == Apply(c, tr[k], a);
  }

  lemma InvReachable(c: Config, w: World)
    requires Valid(c) && Reachable(c, w)
    ensures Inv(c, w)
  {
    var tr :| IsTrace(c, tr) && Last(tr) == w;
    InvAlong(c, tr, |tr| - 1);
  }

  // ---------------------------------------------------------------------------
  // What follows for every run

  /** In every reachable world: the counter is the number of applicable nodes still
      owing the step, no channel is closed twice, a closed channel means nobody owes,
      and a zero counter means closed or exactly one goroutine about to close. */
  lemma SignalSafety(c: Config, w: World, i: nat)
    requires Valid(c) && Reachable(c, w) && i < |c.plan.needs|
    ensures Sized(c, w) && 0 <= w.pending[i] == |Owing(c, w, i)| <= |c.plan.applicable[i]|
    ensures w.closes[i] <= 1
    ensures w.closes[i] == 1 ==> w.pending[i] == 0 && Closing(w, i) == {}
    ensures w.pending[i] == 0 && w.closes[i] == 0 ==> exists n :: Closing(w, i) == {n}
  {
    InvReachable(c, w);
    assert Counter(c, w, i);
    Digraph.Subset(Owing(c, w, i), c.plan.applicable[i]);
    if w.pending[i] == 0 && w.closes[i] == 0 {
      var n :| n in Closing(w, i);
      Singleton(Closing(w, i), n);
    }
  }

  lemma Singleton(s: set<nat>, n: nat)
    requires n in s && |s| == 1
    ensures s == {n}
  {
    assert |s - {n}| == 0;
    assert s == (s - {n}) + {n};
  }

  /** The channel of step `i` closes only once every applicable node has done the step. */
  ghost predicate AllSignalled(c: Config, w: World, i: nat)
    requires Valid(c) && i < |c.plan.applicable|
  {
    forall n :: n in c.plan.applicable[i] ==> n < |w.threads| && Signalled(w.threads[n], i) && Reported(w, n, i)
  }

  lemma ClosedMeansDone(c: Config, w: World, i: nat)
    requires Valid(c) && Reachable(c, w) && i < |c.plan.needs| && Sized(c, w) && w.closes[i] > 0
    ensures AllSignalled(c, w, i)
  {
    InvReachable(c, w);
    assert Counter(c, w, i);
    assert |Owing(c, w, i)| == 0;
    forall n | n in c.plan.applicable[i]
      ensures n < |w.threads| && Signalled(w.threads[n], i) && Reported(w, n, i)
    {
      assert n !in Owing(c, w, i);
      assert Due(c, w, n, i);
    }
  }

  /** The node has left the wait at the head of step `i`, or is past the step. */
  predicate Started(t: Thread, i: nat)
  {
    t.step > i || (t.step == i && !t.pc.Wait? && !t.pc.Exited?)
  }

  /** Dependency barrier: once a node starts step i, every dependency of every step
      up to i, its own or not, has been reported by all nodes it applies to. */
  lemma DependencyBarrier(c: Config, w: World, n: nat, i: nat, j: nat, k: nat)
    requires Valid(c) && Reachable(c, w)
    requires n < |w.threads| && Started(w.threads[n], i)
    requires j <= i < |c.plan.needs| && k < |c.plan.needs[j]|
    ensures AllSignalled(c, w, c.plan.needs[j][k])
  {
    InvReachable(c, w);
    assert Passed(w.threads[n], j, k);
    ClosedMeansDone(c, w, c.plan.needs[j][k]);
  }

  /** `path` follows depends_on edges from its first step to its last. */
  ghost predicate Chain(p: Plan, path: seq<nat>)
  {
    && |path| >= 2 && (forall x :: 0 <= x < |path| ==> path[x] < |p.needs|)
    && (forall x :: 0 <= x < |path| - 1 ==> path[x + 1] in p.needs[path[x]])
  }

  ghost predicate Backward(p: Plan)
  {
    forall i, k :: 0 <= i < |p.needs| && 0 <= k < |p.needs[i]| ==> p.needs[i][k] < i
  }

  /** The barrier covers the whole transitive closure, along every chain whose steps up to the
      last dependency are at most i, even through steps that no node runs. */
  lemma {:induction false} TransitiveBarrier(c: Config, w: World, n: nat, i: nat, path: seq<nat>)
    requires Valid(c) && Reachable(c, w)
    requires n < |w.threads| && Started(w.threads[n], i) && i < |c.plan.needs|
    requires Chain(c.plan, path) && forall x :: 0 <= x < |path| - 1 ==> path[x] <= i
    ensures AllSignalled(c, w, path[|path| - 1])
    decreases |path|
  {
    assert path[1] in c.plan.needs[path[0]];
    var k :| 0 <= k < |c.plan.needs[path[0]]| && c.plan.needs[path[0]][k] == path[1];
    if |path| == 2 {
      DependencyBarrier(c, w, n, i, path[0], k);
    } else {
      var rest := path[1..];
      forall x | 0 <= x < |rest| - 1 ensures rest[x + 1] in c.plan.needs[rest[x]] {
        assert path[x + 1 + 1] in c.plan.needs[path[x + 1]];
      }
      TransitiveBarrier(c, w, n, i, rest);
    }
  }

  /** With backward dependencies those are all chains that start at most at i. */
  lemma {:induction false} BackwardChainsFall(p: Plan, path: seq<nat>, x: nat)
    requires Backward(p) && Chain(p, path) && x < |path|
    ensures path[x] <= path[0]
  {
    if x > 0 {
      BackwardChainsFall(p, path, x - 1);
      assert path[x - 1 + 1] in p.needs[path[x - 1]];
    }
  }

  lemma BackwardBarrier(c: Config, w: World, n: nat, i: nat, path: seq<nat>)
    requires Valid(c) && Reachable(c, w) && Backward(c.plan)
    requires n < |w.threads| && Started(w.threads[n], i) && i < |c.plan.needs|
    requires Chain(c.plan, path) && path[0] <= i
    ensures AllSignalled(c, w, path[|path| - 1])
  {
    forall x | 0 <= x < |path| ensures path[x] <= path[0] {
      BackwardChainsFall(c.plan, path, x);
    }
    TransitiveBarrier(c, w, n, i, path);
  }

  /** At most one result per applicable pair, and the buffer never fills: a goroutine
      about to send always finds room. */
  lemma SendNeverBlocks(c: Config, w: World, n: nat)
    requires Valid(c) && Reachable(c, w)
    requires n < |w.threads| && w.threads[n].pc.Send?
    ensures MoveEnabled(c, w, n, Deliver)
    ensures |w.sent| < c.plan.nodes * |c.plan.needs|
  {
    InvReachable(c, w);
    BelowCapacity(c, w, n);
  }

  lemma BelowCapacity(c: Config, w: World, n: nat)
    requires Valid(c) && Shape(c, w) && Tally(c, w)
    requires n < |w.threads| && w.threads[n].pc.Send?
    ensures |w.sent| < c.plan.nodes * |c.plan.needs|
  {
    assert ThreadOk(c, n, w.threads[n]);
    var i, m := w.threads[n].step, |c.plan.needs|;
    var all := PairsBelow(c.plan, m);
    PairsCount(c.plan, m);
    ExpectedBound(c.plan, m);
    assert (n, i) in all && (n, i) !in Delivered(c, w);
    Digraph.Subset(Delivered(c, w), all - {(n, i)});
  }

  /** A run whose goroutines all went through the step list has sent exactly one result
      per applicable pair, none otherwise, in step order per node. */
  lemma ExactlyOnce(c: Config, w: World)
    requires Valid(c) && Reachable(c, w) && AllFinished(c, w)
    ensures forall n: nat, i: nat :: i < |c.plan.needs| ==> (Reported(w, n, i) <==> n in c.plan.applicable[i])
    ensures forall x, y :: 0 <= x < y < |w.sent| && w.sent[x].node == w.sent[y].node ==> w.sent[x].step < w.sent[y].step
    ensures |w.sent| == Expected(c.plan, |c.plan.needs|)
  {
    InvReachable(c, w);
    forall n: nat, i: nat | i < |c.plan.needs| ensures Reported(w, n, i) <==> n in c.plan.applicable[i] {
      if n in c.plan.applicable[i] {
        assert Finished(c, w, n);
        assert Due(c, w, n, i);
      }
      if Reported(w, n, i) {
        var x :| 0 <= x < |w.sent| && w.sent[x].node == n && w.sent[x].step == i;
        assert Due(c, w, w.sent[x].node, w.sent[x].step);
      }
    }
    forall n: nat, i: nat | n < c.plan.nodes && i < |c.plan.needs|
      ensures Due(c, w, n, i) <==> n in c.plan.applicable[i]
    {
      assert Finished(c, w, n);
    }
    assert Delivered(c, w) == PairsBelow(c.plan, |c.plan.needs|);
    PairsCount(c.plan, |c.plan.needs|);
  }
}
