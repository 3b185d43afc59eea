/** The concurrent part of runPlaybook (cmd/cexec/main.go) as a transition system:
    one program counter per node goroutine, the shared counters, channels and cache,
    the collector loop with its saves, and the context. Every interleaving of the
    goroutines is a trace. */
module Runner {
  import opened Plan
  import State
  import Template
  import Playbook
  import Inventory

  /** The inputs of one run. `plan` is what the setup loops computed. */
  datatype Config = Config(
    plan: Plan,
    nodes: seq<Inventory.Node>,
    steps: seq<Playbook.Step>,
    vars: map<string, string>,
    digest: string -> string,
    force: bool,
    file: State.File)

  ghost function ConfigFor(nodes: seq<Inventory.Node>, steps: seq<Playbook.Step>, vars: map<string, string>,
                           digest: string -> string, force: bool, file: State.File): (c: Config)
    ensures Valid(c)
  {
    Config(PlanOf(nodes, steps), nodes, steps, vars, digest, force, file)
  }

  ghost predicate Valid(c: Config)
  {
    WellFormed(c.plan) && c.plan.nodes == |c.nodes| && |c.plan.needs| == |c.steps|
  }

  /** What a goroutine reports for one step: found in the cache, or run with a verdict. */
  datatype Outcome = Skipped | Ran(success: bool)

  datatype Result = Result(node: nat, step: nat, outcome: Outcome)

  /** Where a node goroutine stands within its current step. `hash` is the local `h`. */
  datatype Pc =
    | Wait(dep: nat)        // in the select on depends_on[dep]
    | Filter                // role filter
    | Check                 // expand, hash, look in the cache
    | Exec(hash: string)    // inside RunSingle
    | Mark(hash: string)    // RunSingle succeeded, st.Mark comes next
    | Send(outcome: Outcome)
    | Decrement             // atomic.AddInt32
    | Close                 // close(signals[i]), after a decrement that gave zero
    | Exited

  datatype Thread = Thread(step: nat, pc: Pc)

  datatype Collector = Receive | Snapshot | Write(image: map<string, State.Entry>) | Ended

  datatype World = World(
    threads: seq<Thread>,
    pending: seq<int>,
    closes: seq<nat>,       // how often each signal channel has been closed
    sent: seq<Result>,      // everything sent on `results`, in order
    taken: nat,             // how many of them the collector has received
    resultsClosed: bool,
    cancelled: bool,
    mem: map<string, State.Entry>,
    disk: State.File,
    collector: Collector,
    succeeded: nat,
    failed: nat,
    saveFailed: bool)       // the last save of the run failed

  /** One atomic move of a node goroutine. Parameters are the environment's choices:
      the walk order over the variable map, the verdict of RunSingle, the clock. */
  datatype Move =
    | PassDependency
    | Abandon
    | EndWait
    | Leave
    | RoleFilter
    | Lookup(order: seq<string>)
    | Run(success: bool)
    | Record(now: int)
    | Deliver
    | CountDown
    | Signal

  datatype Action =
    | Worker(node: nat, move: Move)
    | Cancel
    | CloseResults
    | Take
    | TakeSnapshot
    | SaveDone(listing: seq<State.Entry>)
    | SaveFail
    | EndCollect

  function InitialCloses(p: Plan): seq<nat>
  {
    seq(|p.applicable|, i requires 0 <= i < |p.applicable| => if p.applicable[i] == {} then 1 else 0)
  }

  function InitialPending(p: Plan): seq<int>
  {
    seq(|p.applicable|, i requires 0 <= i < |p.applicable| => |p.applicable[i]|)
  }

  function Init(c: Config): World
  {
    World(seq(c.plan.nodes, _ => Thread(0, Wait(0))), InitialPending(c.plan), InitialCloses(c.plan),
          [], 0, false, false, State.Contents(c.file), c.file, Receive, 0, 0, false)
  }

  ghost function Hash(c: Config, n: nat, i: nat, order: seq<string>): string
    requires n < |c.nodes| && i < |c.steps| && Template.IsOrder(order, c.vars)
  {
    c.digest(State.Preimage(c.nodes[n].name, c.steps[i].name, Template.ExpandIn(c.steps[i].command, c.vars, order)))
  }

  ghost predicate Sized(c: Config, w: World)
  {
    && |w.threads| == c.plan.nodes
    && |w.pending| == |w.closes| == |c.plan.needs|
    && w.taken <= |w.sent|
  }

  ghost predicate MoveEnabled(c: Config, w: World, n: nat, m: Move)
    requires Valid(c)
  {
    && Sized(c, w) && n < |w.threads|
    && var t := w.threads[n];
       if t.step < |c.plan.needs| then StepMoveEnabled(c, w, t, m)
       else m.Leave? && t.pc.Wait? && t.step == |c.plan.needs|
  }

  ghost predicate StepMoveEnabled(c: Config, w: World, t: Thread, m: Move)
    requires Valid(c) && Sized(c, w) && t.step < |c.plan.needs|
  {
    match m
    case PassDependency =>
      && t.pc.Wait? && t.pc.dep < |c.plan.needs[t.step]|
      && w.closes[c.plan.needs[t.step][t.pc.dep]] > 0
    case Abandon => t.pc.Wait? && t.pc.dep < |c.plan.needs[t.step]| && w.cancelled
    case EndWait => t.pc.Wait? && t.pc.dep == |c.plan.needs[t.step]|
    case Leave => false
    case RoleFilter => t.pc.Filter?
    case Lookup(order) => t.pc.Check? && Template.IsOrder(order, c.vars)
    case Run(_) => t.pc.Exec?
    case Record(_) => t.pc.Mark?
    case Deliver => t.pc.Send? && |w.sent| - w.taken < c.plan.nodes * |c.plan.needs|
    case CountDown => t.pc.Decrement?
    case Signal => t.pc.Close?
  }

  function Advance(t: Thread): Thread
  {
    Thread(t.step + 1, Wait(0))
  }

  function At(t: Thread, pc: Pc): Thread
  {
    t.(pc := pc)
  }

  /** The goroutine's local part of a move. */
  ghost function Moved(c: Config, w: World, n: nat, m: Move): Thread
    requires Valid(c) && MoveEnabled(c, w, n, m)
  {
    var t := w.threads[n];
    match m
    case PassDependency => At(t, Wait(t.pc.dep + 1))
    case Abandon => At(t, Exited)
    case EndWait => At(t, Filter)
    case Leave => At(t, Exited)
    case RoleFilter => if n in c.plan.applicable[t.step] then At(t, Check) else Advance(t)
    case Lookup(order) =>
      var h := Hash(c, n, t.step, order);
      At(t, if !c.force && State.Key(c.nodes[n].name, h) in w.mem then Send(Skipped) else Exec(h))
    case Run(success) => At(t, if success then Mark(t.pc.hash) else Send(Ran(false)))
    case Record(_) => At(t, Send(Ran(true)))
    case Deliver => At(t, Decrement)
    case CountDown => if w.pending[t.step] - 1 == 0 then At(t, Close) else Advance(t)
    case Signal => Advance(t)
  }

  ghost function AfterMove(c: Config, w: World, n: nat, m: Move): World
    requires Valid(c) && MoveEnabled(c, w, n, m)
  {
    var t := w.threads[n];
    var w1 := w.(threads := w.threads[n := Moved(c, w, n, m)]);
    match m
    case Record(now) =>
      var name := c.nodes[n].name;
      w1.(mem := w.mem[State.Key(name, t.pc.hash) := State.Entry(name, c.steps[t.step].name, t.pc.hash, now)])
    case Deliver => w1.(sent := w.sent + [Result(n, t.step, t.pc.outcome)])
    case CountDown => w1.(pending := w.pending[t.step := w.pending[t.step] - 1])
    case Signal => w1.(closes := w.closes[t.step := w.closes[t.step] + 1])
    case _ => w1
  }

  ghost predicate AllExited(w: World)
  {
    forall n :: 0 <= n < |w.threads| ==> w.threads[n].pc.Exited?
  }

  ghost predicate Enabled(c: Config, w: World, a: Action)
    requires Valid(c)
  {
    match a
    case Worker(n, m) => MoveEnabled(c, w, n, m)
    case Cancel => !w.cancelled
    case CloseResults => AllExited(w) && !w.resultsClosed
    case Take => w.collector.Receive? && w.taken < |w.sent|
    case TakeSnapshot => w.collector.Snapshot?
    case SaveDone(listing) => w.collector.Write? && State.Image(listing, w.collector.image)
    case SaveFail => w.collector.Write?
    case EndCollect => w.collector.Receive? && w.taken == |w.sent| && w.resultsClosed
  }

  ghost function Apply(c: Config, w: World, a: Action): World
    requires Valid(c) && Enabled(c, w, a)
  {
    match a
    case Worker(n, m) => AfterMove(c, w, n, m)
    case Cancel => w.(cancelled := true)
    case CloseResults => w.(resultsClosed := true)
    case Take =>
      var w1 := w.(taken := w.taken + 1);
      (match w.sent[w.taken].outcome
       case Skipped => w1
       case Ran(true) => w1.(succeeded := w.succeeded + 1, collector := Snapshot)
       case Ran(false) => w1.(failed := w.failed + 1, collector := Snapshot))
    case TakeSnapshot => w.(collector := Write(w.mem))
    case SaveDone(listing) => w.(disk := State.Saved(listing), saveFailed := false, collector := Receive)
    case SaveFail => w.(saveFailed := true, collector := Receive)
    case EndCollect => w.(collector := Ended)
  }

  ghost predicate Step(c: Config, w: World, w': World)
    requires Valid(c)
  {
    exists a :: Enabled(c, w, a) && w' == Apply(c, w, a)
  }

  ghost predicate StepAt(c: Config, tr: seq<World>, i: int)
    requires Valid(c) && 0 <= i < |tr| - 1
  {
    Step(c, tr[i], tr[i + 1])
  }

  /** A run so far: the worlds it went through, from the initial one. */
  ghost predicate IsTrace(c: Config, tr: seq<World>)
    requires Valid(c)
  {
    && tr != [] && tr[0] == Init(c)
    && forall i :: 0 <= i < |tr| - 1 ==> StepAt(c, tr, i)
  }

  ghost function Last(tr: seq<World>): World
    requires tr != []
  {
    tr[|tr| - 1]
  }

  ghost predicate Reachable(c: Config, w: World)
    requires Valid(c)
  {
    exists tr :: IsTrace(c, tr) && Last(tr) == w
  }

  /** Nothing can happen any more, short of a cancellation from outside. */
  ghost predicate Halted(c: Config, w: World)
    requires Valid(c)
  {
    forall a :: Enabled(c, w, a) ==> a.Cancel?
  }

  /** The goroutine of node `n` went through the whole step list. */
  ghost predicate Finished(c: Config, w: World, n: nat)
    requires Valid(c)
  {
    n < |w.threads| && w.threads[n] == Thread(|c.plan.needs|, Exited)
  }

  ghost predicate AllFinished(c: Config, w: World)
    requires Valid(c)
  {
    |w.threads| == c.plan.nodes && forall n :: 0 <= n < c.plan.nodes ==> Finished(c, w, n)
  }

  /** The collector loop has ended: every goroutine returned and every result was handled. */
  ghost predicate Complete(w: World)
  {
    w.collector.Ended?
  }

  // ---------------------------------------------------------------------------
  // Moving along traces

  lemma {:induction false} TracePrefix(c: Config, tr: seq<World>, k: nat)
    requires Valid(c) && IsTrace(c, tr) && k < |tr|
    ensures IsTrace(c, tr[..k + 1]) && Reachable(c, tr[k])
  {
    var p := tr[..k + 1];
    forall i | 0 <= i < |p| - 1 ensures StepAt(c, p, i) {
      assert StepAt(c, tr, i);
    }
    assert Last(p) == tr[k];
  }
}
