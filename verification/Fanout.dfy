/** internal/executor/executor.go: Run. One goroutine per node, a counting semaphore when
    MaxConcurrency is positive, and one result slot per node. */
module Fanout {
  import opened Wrappers
  import Executor
  import Digraph

  type Log = Executor.NodeLog

  /** `limit` is MaxConcurrency; zero or less means no semaphore. `mayReturn` says which logs
      executeWithRetry may return for a node. */
  datatype Config = Config(nodes: seq<string>, limit: int, mayReturn: (string, Log) -> bool)

  /** executeWithRetry returns on every node. */
  ghost predicate Returns(c: Config)
  {
    forall i :: 0 <= i < |c.nodes| ==> ReturnsOn(c, i)
  }

  ghost predicate ReturnsOn(c: Config, i: nat)
    requires i < |c.nodes|
  {
    exists log :: c.mayReturn(c.nodes[i], log)
  }

  datatype Pc = Waiting | Running | Releasing | Done

  datatype World = World(pcs: seq<Pc>, tokens: nat, slots: seq<Option<Log>>, writes: seq<nat>, cancelled: bool)

  datatype Action = Acquire(i: nat) | GiveUp(i: nat) | Finish(i: nat, log: Log) | Release(i: nat) | Cancel

  function Init(c: Config): World
  {
    World(seq(|c.nodes|, _ => Waiting), 0, seq(|c.nodes|, _ => None), seq(|c.nodes|, _ => 0), false)
  }

  predicate Sized(c: Config, w: World)
  {
    |w.pcs| == |w.slots| == |w.writes| == |c.nodes|
  }

  function CancelledLog(node: string): Log
  {
    Executor.NodeLog(node, Executor.CommandResult(false, "cancelled before execution", -1), Executor.CommandTimeout, 0)
  }

  predicate Enabled(c: Config, w: World, a: Action)
  {
    && Sized(c, w)
    && match a
       case Acquire(i) => i < |w.pcs| && w.pcs[i].Waiting? && (c.limit <= 0 || w.tokens < c.limit)
       case GiveUp(i) => i < |w.pcs| && w.pcs[i].Waiting? && c.limit > 0 && w.cancelled
       case Finish(i, log) => i < |w.pcs| && w.pcs[i].Running? && c.mayReturn(c.nodes[i], log)
       case Release(i) => i < |w.pcs| && w.pcs[i].Releasing?
       case Cancel => !w.cancelled
  }

  function Put(w: World, i: nat, log: Log, pc: Pc): World
    requires i < |w.pcs| == |w.slots| == |w.writes|
  {
    w.(pcs := w.pcs[i := pc], slots := w.slots[i := Some(log)], writes := w.writes[i := w.writes[i] + 1])
  }

  function Apply(c: Config, w: World, a: Action): World
    requires Enabled(c, w, a)
  {
    match a
    case Acquire(i) => w.(pcs := w.pcs[i := Running], tokens := if c.limit > 0 then w.tokens + 1 else w.tokens)
    case GiveUp(i) => Put(w, i, CancelledLog(c.nodes[i]), Done)
    case Finish(i, log) => Put(w, i, log, if c.limit > 0 then Releasing else Done)
    case Release(i) => w.(pcs := w.pcs[i := Done], tokens := if w.tokens > 0 then w.tokens - 1 else 0)
    case Cancel => w.(cancelled := true)
  }

  ghost predicate StepAt(c: Config, tr: seq<World>, k: int)
    requires 0 <= k < |tr| - 1
  {
    exists a :: Enabled(c, tr[k], a) && tr[k + 1] == Apply(c, tr[k], a)
  }

  ghost predicate IsTrace(c: Config, tr: seq<World>)
  {
    tr != [] && tr[0] == Init(c) && forall k :: 0 <= k < |tr| - 1 ==> StepAt(c, tr, k)
  }

  ghost predicate Halted(c: Config, w: World)
  {
    forall a :: Enabled(c, w, a) ==> a.Cancel?
  }

  /** Goroutines holding a token: executing, or about to give it back. */
  ghost function Holders(w: World): set<nat>
  {
    set i | 0 <= i < |w.pcs| && (w.pcs[i].Running? || w.pcs[i].Releasing?)
  }

  ghost function Executing(w: World): set<nat>
  {
    set i | 0 <= i < |w.pcs| && w.pcs[i].Running?
  }

  /** The log of node `i`: what executeWithRetry returned for it, or, once the run is cancelled
      and if there is a semaphore to wait for, a failed one of no attempt. */
  predicate OwnLog(c: Config, w: World, i: nat, log: Log)
    requires i < |c.nodes|
  {
    || c.mayReturn(c.nodes[i], log)
    || (c.limit > 0 && w.cancelled && log == CancelledLog(c.nodes[i]))
  }

  /** What such a log looks like: the summary counts it as timed out. */
  lemma CancelledLogFails(node: string)
    ensures var l := CancelledLog(node);
            && l.node == node && !l.result.success && l.result.exitCode == -1 && l.retries == 0
            && l.category == Executor.CommandTimeout && Executor.BucketOf(l) == Executor.InTimedOut
  {
  }

  ghost predicate SlotOk(c: Config, w: World, i: nat)
    requires Sized(c, w) && i < |c.nodes|
  {
    var written := w.pcs[i].Releasing? || w.pcs[i].Done?;
    && w.writes[i] == (if written then 1 else 0)
    && (written <==> w.slots[i].Some?)
    && (written ==> OwnLog(c, w, i, w.slots[i].value))
    && (w.pcs[i].Releasing? ==> c.limit > 0)
  }

  ghost predicate Inv(c: Config, w: World)
  {
    && Sized(c, w)
    && (c.limit > 0 ==> w.tokens == |Holders(w)| <= c.limit)
    && (forall i :: 0 <= i < |c.nodes| ==> SlotOk(c, w, i))
  }

  lemma HoldersAfter(c: Config, w: World, a: Action)
    requires Inv(c, w) && Enabled(c, w, a) && c.limit > 0
    ensures Apply(c, w, a).tokens == |Holders(Apply(c, w, a))| <= c.limit
  {
    var h, h' := Holders(w), Holders(Apply(c, w, a));
    hide SlotOk;
    if a.Acquire? {
      assert h' == h + {a.i};
    } else if a.Release? {
      assert h' == h - {a.i} && a.i in h;
    } else {
      assert h' == h;
    }
  }

  lemma InvStep(c: Config, w: World, a: Action)
    requires Inv(c, w) && Enabled(c, w, a)
    ensures Inv(c, Apply(c, w, a))
  {
    if c.limit > 0 {
      HoldersAfter(c, w, a);
    }
    var w' := Apply(c, w, a);
    forall i | 0 <= i < |c.nodes| ensures SlotOk(c, w', i) {
      assert SlotOk(c, w, i);
    }
  }

  lemma {:induction false} InvAlong(c: Config, tr: seq<World>, k: nat)
    requires IsTrace(c, tr) && k < |tr|
    ensures Inv(c, tr[k])
  {
    if k == 0 {
      assert Holders(tr[0]) == {};
    } else {
      InvAlong(c, tr, k - 1);
      assert StepAt(c, tr, k - 1);
      var a :| Enabled(c, tr[k - 1], a) && tr[k] == Apply(c, tr[k - 1], a);
      InvStep(c, tr[k - 1], a);
    }
  }

  /** At no point of any run do more goroutines execute than MaxConcurrency allows. */
  lemma ConcurrencyCap(c: Config, tr: seq<World>, k: nat)
    requires IsTrace(c, tr) && k < |tr| && c.limit > 0
    ensures |Executing(tr[k])| <= c.limit
  {
    InvAlong(c, tr, k);
    Digraph.Subset(Executing(tr[k]), Holders(tr[k]));
  }

  // ---------------------------------------------------------------------------
  // Every run ends, with every slot filled once by its own goroutine

  function Work(pc: Pc): nat
  {
    match pc case Waiting => 3 case Running => 2 case Releasing => 1 case Done => 0
  }

  function TotalWork(pcs: seq<Pc>): nat
  {
    if pcs == [] then 0 else TotalWork(pcs[..|pcs| - 1]) + Work(pcs[|pcs| - 1])
  }

  lemma {:induction false} UpdateWork(pcs: seq<Pc>, i: nat, pc: Pc)
    requires i < |pcs|
    ensures TotalWork(pcs[i := pc]) == TotalWork(pcs) - Work(pcs[i]) + Work(pc)
  {
    var init := pcs[..|pcs| - 1];
    if i == |pcs| - 1 {
      assert pcs[i := pc][..|pcs| - 1] == init;
    } else {
      UpdateWork(init, i, pc);
      assert pcs[i := pc][..|pcs| - 1] == init[i := pc];
    }
  }

  function Measure(w: World): nat
  {
    TotalWork(w.pcs) + if w.cancelled then 0 else 1
  }

  lemma StepWorks(c: Config, w: World, a: Action)
    requires Enabled(c, w, a)
    ensures Measure(Apply(c, w, a)) < Measure(w)
  {
    if !a.Cancel? {
      UpdateWork(w.pcs, a.i, Apply(c, w, a).pcs[a.i]);
    }
  }

  lemma {:induction false} EveryRunIsFinite(c: Config, tr: seq<World>, k: nat)
    requires IsTrace(c, tr) && k < |tr|
    ensures Measure(tr[k]) + k <= Measure(Init(c))
  {
    if k > 0 {
      EveryRunIsFinite(c, tr, k - 1);
      assert StepAt(c, tr, k - 1);
      var a :| Enabled(c, tr[k - 1], a) && tr[k] == Apply(c, tr[k - 1], a);
      StepWorks(c, tr[k - 1], a);
    }
  }

  /** A run that can go no further has returned from wg.Wait: every goroutine is done,
      every slot was written exactly once, by the goroutine of its own node. The
      semaphore cannot deadlock: with a positive limit somebody holds a token or may take one. */
  lemma RunReturnsAllResults(c: Config, tr: seq<World>)
    requires IsTrace(c, tr) && Halted(c, tr[|tr| - 1]) && Returns(c)
    ensures var w := tr[|tr| - 1];
            && Sized(c, w)
            && (forall i :: 0 <= i < |c.nodes| ==>
                  w.pcs[i].Done? && w.writes[i] == 1 && w.slots[i].Some? && OwnLog(c, w, i, w.slots[i].value))
            && forall i :: 0 <= i < |c.nodes| && !c.mayReturn(c.nodes[i], w.slots[i].value) ==>
                 && w.cancelled && w.slots[i].value.node == c.nodes[i] && !w.slots[i].value.result.success
                 && w.slots[i].value.category == Executor.CommandTimeout && w.slots[i].value.retries == 0
  {
    var w := tr[|tr| - 1];
    InvAlong(c, tr, |tr| - 1);
    assert Holders(w) == {} by {
      if i :| i in Holders(w) {
        assert ReturnsOn(c, i);
        var log :| c.mayReturn(c.nodes[i], log);
        assert Enabled(c, w, if w.pcs[i].Running? then Finish(i, log) else Release(i));
      }
    }
    forall i | 0 <= i < |c.nodes|
      ensures w.pcs[i].Done? && w.writes[i] == 1 && w.slots[i].Some? && OwnLog(c, w, i, w.slots[i].value)
    {
      assert i !in Holders(w);
      assert !Enabled(c, w, Acquire(i));
      assert SlotOk(c, w, i);
    }
  }
}
