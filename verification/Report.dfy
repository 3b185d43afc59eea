/** The loop of runPlaybook that ranges over the results channel: totals, failed nodes
    and the per-step logs that decide what is written and the exit code. */
module Report {
  import Runner
  import opened RunnerCache
  import opened RunnerSafety
  import opened RunnerLiveness
  import Rerun

  type Event = Runner.Result

  /** The executed results of one step, in arrival order. */
  function LogsOf(es: seq<Event>, step: nat): seq<Event>
  {
    if es == [] then []
    else
      var e := es[|es| - 1];
      LogsOf(es[..|es| - 1], step) + if e.step == step && e.outcome.Ran? then [e] else []
  }

  /** A step's log holds its executed results in the order they came: `at` gives their places
      among the results, and they are all the places of such results. */
  lemma {:induction false} LogsInOrder(es: seq<Event>, step: nat) returns (at: seq<nat>)
    ensures |at| == |LogsOf(es, step)|
    ensures forall k :: 0 <= k < |at| ==> at[k] < |es| && es[at[k]] == LogsOf(es, step)[k]
    ensures forall j, k :: 0 <= j < k < |at| ==> at[j] < at[k]
    ensures forall i: nat :: i in at <==> i < |es| && es[i].step == step && es[i].outcome.Ran?
  {
    at := [];
    if es != [] {
      var last := |es| - 1;
      var before := LogsInOrder(es[..last], step);
      at := before + if es[last].step == step && es[last].outcome.Ran? then [last] else [];
      LogsNext(es, step, before, at);
    }
  }

  lemma LogsNext(es: seq<Event>, step: nat, before: seq<nat>, at: seq<nat>)
    requires es != []
    requires at == before + if es[|es| - 1].step == step && es[|es| - 1].outcome.Ran? then [|es| - 1] else []
    requires |before| == |LogsOf(es[..|es| - 1], step)|
    requires forall k :: 0 <= k < |before| ==> before[k] < |es| - 1 && es[before[k]] == LogsOf(es[..|es| - 1], step)[k]
    requires forall i: nat :: i in before <==> i < |es| - 1 && es[i].step == step && es[i].outcome.Ran?
    ensures |at| == |LogsOf(es, step)|
    ensures forall k :: 0 <= k < |at| ==> at[k] < |es| && es[at[k]] == LogsOf(es, step)[k]
    ensures forall i: nat :: i in at <==> i < |es| && es[i].step == step && es[i].outcome.Ran?
  {
    var last, earlier := |es| - 1, LogsOf(es[..|es| - 1], step);
    var logs := LogsOf(es, step);
    assert logs == earlier + if es[last].step == step && es[last].outcome.Ran? then [es[last]] else [];
    hide LogsOf;
    forall i: nat ensures i in at <==> i in before || (i == last && es[last].step == step && es[last].outcome.Ran?) {}
    forall k | 0 <= k < |at| ensures at[k] < |es| && es[at[k]] == logs[k] {
      if k < |before| { assert at[k] == before[k] && logs[k] == earlier[k]; }
    }
  }

  /** Some step failed on a node of that name. */
  ghost predicate FailedOn(names: seq<string>, es: seq<Event>, name: string)
  {
    exists e :: e in es && e.node < |names| && names[e.node] == name && e.outcome == Runner.Ran(false)
  }

  /** The names of nodes with a failed result, each once. */
  ghost predicate NamesFor(names: seq<string>, failedNodes: seq<string>, es: seq<Event>)
  {
    && (forall i, j :: 0 <= i < j < |failedNodes| ==> failedNodes[i] != failedNodes[j])
    && (forall s :: s in failedNodes <==> FailedOn(names, es, s))
  }

  /** One log per step with an executed result, holding exactly those results. */
  ghost predicate LogsFor(logs: map<nat, seq<Event>>, es: seq<Event>)
  {
    && (forall i :: i in logs <==> LogsOf(es, i) != [])
    && (forall i :: i in logs ==> logs[i] == LogsOf(es, i))
  }

  lemma LogsAfter(logs: map<nat, seq<Event>>, es: seq<Event>, e: Event)
    requires LogsFor(logs, es)
    ensures LogsFor(if e.outcome.Skipped?
                    then logs else logs[e.step := (if e.step in logs then logs[e.step] else []) + [e]], es + [e])
  {
    assert (es + [e])[..|es|] == es;
  }

  lemma NamesAfter(names: seq<string>, failedNodes: seq<string>, es: seq<Event>, e: Event)
    requires NamesFor(names, failedNodes, es) && e.node < |names|
    ensures NamesFor(names,
                     if e.outcome == Runner.Ran(false) && names[e.node] !in failedNodes
                     then failedNodes + [names[e.node]] else failedNodes,
                     es + [e])
  {
    FailedGrows(names, es, e);
    hide FailedOn;
    if e.outcome == Runner.Ran(false) && names[e.node] !in failedNodes {
      assert forall s :: s in failedNodes + [names[e.node]] <==> s in failedNodes || s == names[e.node];
    }
  }

  lemma CountAfter(es: seq<Event>, e: Event)
    ensures forall o :: Count(es + [e], o) == Count(es, o) + if e.outcome == o then 1 else 0
  {
    assert (es + [e])[..|es|] == es;
  }

  /** The state of the loop; `names` are the nodes' names by number. */
  class ResultLoop {
    const names: seq<string>
    var succeeded: nat
    var failed: nat
    var failedNodes: seq<string>
    var stepLogs: map<nat, seq<Event>>
    ghost var seen: seq<Event>

    ghost predicate Valid()
      reads this
    {
      && succeeded == Count(seen, Runner.Ran(true)) && failed == Count(seen, Runner.Ran(false))
      && NamesFor(names, failedNodes, seen) && LogsFor(stepLogs, seen)
      && forall e :: e in seen ==> e.node < |names|
    }

    constructor (names: seq<string>)
      ensures Valid() && seen == [] && this.names == names
    {
      this.names := names;
      succeeded, failed, failedNodes, stepLogs, seen := 0, 0, [], map[], [];
    }

    method Receive(e: Event)
      requires Valid() && e.node < |names|
      modifies this
      ensures Valid() && seen == old(seen) + [e]
      ensures e.outcome.Skipped? ==> unchanged(`succeeded, `failed, `failedNodes, `stepLogs)
    {
      hide NamesFor, LogsFor, Count;
      LogsAfter(stepLogs, seen, e);
      NamesAfter(names, failedNodes, seen, e);
      CountAfter(seen, e);
      seen := seen + [e];
      if e.outcome.Ran? {
        var logs := if e.step in stepLogs then stepLogs[e.step] else [];
        stepLogs := stepLogs[e.step := logs + [e]];
        if e.outcome.success {
          succeeded := succeeded + 1;
        } else {
          failed := failed + 1;
          if names[e.node] !in failedNodes {
            failedNodes := failedNodes + [names[e.node]];
          }
        }
      }
    }

    /** The exit status: 1 exactly when some result failed, and then some node is named. */
    method ExitCode() returns (code: nat)
      requires Valid()
      ensures code == 1 <==> exists e :: e in seen && e.outcome == Runner.Ran(false)
      ensures code == 1 <==> failedNodes != []
      ensures code == 1 <==> failed > 0
      ensures code <= 1
    {
      code := if failed > 0 then 1 else 0;
      SomeFailure(seen);
      if failedNodes != [] {
        assert FailedOn(names, seen, failedNodes[0]);
      }
      if e :| e in seen && e.outcome == Runner.Ran(false) {
        assert FailedOn(names, seen, names[e.node]);
      }
    }
  }

  /** The loop over everything the goroutines of a run sent, once its collector has ended:
      it ends with the run's own totals, the names of the nodes with a failed result, each
      step's executed results, and the exit status they call for. */
  method CollectRun(names: seq<string>, results: seq<Event>, ghost c: Runner.Config, ghost w: Runner.World)
    returns (loop: ResultLoop, code: nat)
    requires Runner.Valid(c) && Runner.Reachable(c, w) && Runner.Complete(w) && results == w.sent
    requires |names| == |c.nodes| && forall n :: 0 <= n < |names| ==> names[n] == c.nodes[n].name
    ensures fresh(loop) && loop.Valid() && loop.names == names && loop.seen == w.sent
    ensures loop.succeeded == w.succeeded && loop.failed == w.failed
    ensures forall s :: s in loop.failedNodes <==>
              exists r :: r in w.sent && r.outcome == Runner.Ran(false) && r.node < |names| && names[r.node] == s
    ensures forall i, j :: 0 <= i < j < |loop.failedNodes| ==> loop.failedNodes[i] != loop.failedNodes[j]
    ensures forall i :: i in loop.stepLogs <==> LogsOf(w.sent, i) != []
    ensures forall i :: i in loop.stepLogs ==> loop.stepLogs[i] == LogsOf(w.sent, i)
    ensures code == if w.failed > 0 then 1 else 0
  {
    Totalled(c, w);
    loop := new ResultLoop(names);
    for x := 0 to |results|
      invariant fresh(loop) && loop.Valid() && loop.names == names && loop.seen == results[..x]
    {
      hide ResultLoop.Valid;
      assert results[x] in w.sent;
      loop.Receive(results[x]);
      assert results[..x + 1] == results[..x] + [results[x]];
    }
    assert results[..|results|] == results;
    code := loop.ExitCode();
  }

  lemma Totalled(c: Runner.Config, w: Runner.World)
    requires Runner.Valid(c) && Runner.Reachable(c, w) && Runner.Complete(w)
    ensures w.succeeded == Count(w.sent, Runner.Ran(true)) && w.failed == Count(w.sent, Runner.Ran(false))
    ensures forall e :: e in w.sent ==> e.node < |c.nodes|
  {
    CompleteMeansFinished(c, w);
    RunTotals(c, w);
    InvReachable(c, w);
    forall e | e in w.sent ensures e.node < |c.nodes| { Rerun.SentIsDue(c, w, e); }
  }

  lemma FailedGrows(names: seq<string>, es: seq<Event>, e: Event)
    requires e.node < |names|
    ensures forall s :: FailedOn(names, es + [e], s) <==>
              FailedOn(names, es, s) || (s == names[e.node] && e.outcome == Runner.Ran(false))
  {
    assert forall x :: x in es + [e] <==> x in es || x == e;
  }

  lemma {:induction false} SomeFailure(es: seq<Event>)
    ensures Count(es, Runner.Ran(false)) > 0 <==> exists e :: e in es && e.outcome == Runner.Ran(false)
  {
    if es != [] {
      SomeFailure(es[..|es| - 1]);
      assert forall x :: x in es <==> x in es[..|es| - 1] || x == es[|es| - 1];
    }
  }

  /** The per-step logs hold every executed result once: their lengths add up to the totals. */
  function LogTotal(es: seq<Event>, steps: nat): nat
  {
    if steps == 0 then 0 else LogTotal(es, steps - 1) + |LogsOf(es, steps - 1)|
  }

  lemma {:induction false} LogsCoverTotals(es: seq<Event>, steps: nat)
    requires forall e :: e in es ==> e.step < steps
    ensures LogTotal(es, steps) == Count(es, Runner.Ran(true)) + Count(es, Runner.Ran(false))
  {
    if es == [] {
      NoLogs(steps);
    } else {
      var init, e := es[..|es| - 1], es[|es| - 1];
      LogsCoverTotals(init, steps);
      LogGrows(init, e, steps);
      assert init + [e] == es;
    }
  }

  lemma {:induction false} NoLogs(steps: nat)
    ensures LogTotal([], steps) == 0
  {
    if steps > 0 { NoLogs(steps - 1); }
  }

  lemma {:induction false} LogGrows(es: seq<Event>, e: Event, steps: nat)
    ensures LogTotal(es + [e], steps) == LogTotal(es, steps) + if e.step < steps && e.outcome.Ran? then 1 else 0
  {
    if steps > 0 {
      hide LogsOf;
      LogGrows(es, e, steps - 1);
      LogAppends(es, e, steps - 1);
    }
  }

  lemma LogAppends(es: seq<Event>, e: Event, step: nat)
    ensures LogsOf(es + [e], step) == LogsOf(es, step) + if e.step == step && e.outcome.Ran? then [e] else []
  {
    assert (es + [e])[..|es|] == es;
  }

  lemma RunTotals(c: Runner.Config, w: Runner.World)
    requires Runner.Valid(c) && Runner.Reachable(c, w) && w.taken == |w.sent|
    ensures w.succeeded == Count(w.sent, Runner.Ran(true)) && w.failed == Count(w.sent, Runner.Ran(false))
    ensures forall e :: e in w.sent ==> e.step < |c.plan.needs|
  {
    hide Count;
    var tr :| Runner.IsTrace(c, tr) && Runner.Last(tr) == w;
    TotalsAlong(c, tr, |tr| - 1);
    InvReachable(c, w);
    assert w.sent[..w.taken] == w.sent;
    forall e | e in w.sent ensures e.step < |c.plan.needs| { Rerun.SentIsDue(c, w, e); }
  }

  /** What a run reports once its collector has ended, in every interleaving: the totals,
      hence the exit status, count the results the goroutines sent, and the per-step logs
      hold each executed result once. */
  lemma RunReport(c: Runner.Config, w: Runner.World)
    requires Runner.Valid(c) && Runner.Reachable(c, w) && Runner.Complete(w)
    ensures w.succeeded == Count(w.sent, Runner.Ran(true)) && w.failed == Count(w.sent, Runner.Ran(false))
    ensures w.succeeded + w.failed == LogTotal(w.sent, |c.plan.needs|)
    ensures w.failed > 0 <==> exists n: nat, i: nat :: Runner.Result(n, i, Runner.Ran(false)) in w.sent
  {
    CompleteMeansFinished(c, w);
    RunTotals(c, w);
    LogsCoverTotals(w.sent, |c.plan.needs|);
    SomeFailure(w.sent);
    hide Count, LogTotal, Runner.Reachable, Runner.Complete;
    if e :| e in w.sent && e.outcome == Runner.Ran(false) {
      assert e == Runner.Result(e.node, e.step, Runner.Ran(false));
    }
  }
}
