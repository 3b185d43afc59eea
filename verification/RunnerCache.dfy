/** The in-memory cache, the state file and the collector's saves, over whole runs. */
module RunnerCache {
  import opened Runner
  import opened RunnerSafety
  import opened RunnerLiveness
  import State
  import Template

  type Entries = map<string, State.Entry>

  /** `key` is a cache key the run may compute for node `n` and step `i`. */
  ghost predicate IsKey(c: Config, n: nat, i: nat, key: string)
    requires Valid(c)
  {
    n < |c.nodes| && i < |c.steps| &&
    exists order :: Template.IsOrder(order, c.vars) && key == State.Key(c.nodes[n].name, Hash(c, n, i, order))
  }

  /** RunSingle reported success for the pair (and st.Mark has been called). */
  ghost predicate Succeeded(w: World, n: nat, i: nat)
  {
    || (n < |w.threads| && w.threads[n] == Thread(i, Send(Ran(true))))
    || Result(n, i, Ran(true)) in w.sent
  }

  /** The pair this entry belongs to was executed successfully in this run. */
  ghost predicate Earned(c: Config, w: World, key: string, e: State.Entry)
    requires Valid(c)
  {
    exists n: nat, i: nat :: IsKey(c, n, i, key) && n in c.plan.applicable[i] && Succeeded(w, n, i)
                   && e.node == c.nodes[n].name && e.stepName == c.steps[i].name
  }

  /** Every entry was there from the start or is earned. */
  ghost predicate Provenance(c: Config, w: World, m: Entries)
    requires Valid(c)
  {
    forall key :: key in m ==>
      || (key in State.Contents(c.file) && m[key] == State.Contents(c.file)[key])
      || Earned(c, w, key, m[key])
  }

  ghost predicate HashOk(c: Config, n: nat, t: Thread)
    requires Valid(c)
  {
    t.pc.Exec? || t.pc.Mark? ==> n < |c.nodes| && IsKey(c, n, t.step, State.Key(c.nodes[n].name, t.pc.hash))
  }

  ghost predicate HashesOk(c: Config, w: World)
    requires Valid(c)
  {
    forall n :: 0 <= n < |w.threads| ==> HashOk(c, n, w.threads[n])
  }

  /** What a successful execution leaves in memory. */
  ghost predicate Kept(c: Config, w: World)
    requires Valid(c)
  {
    forall n: nat, i: nat :: Succeeded(w, n, i) ==> exists key :: IsKey(c, n, i, key) && key in w.mem
  }

  lemma LookupHash(c: Config, w: World, n: nat, m: Move)
    requires Valid(c) && MoveEnabled(c, w, n, m) && HashOk(c, n, w.threads[n])
    ensures HashOk(c, n, Moved(c, w, n, m))
  {
    if m.Lookup? {
      assert Template.IsOrder(m.order, c.vars);
    }
  }

  lemma HashesStep(c: Config, w: World, a: Action)
    requires Valid(c) && Sized(c, w) && HashesOk(c, w) && Enabled(c, w, a)
    ensures HashesOk(c, Apply(c, w, a))
  {
    ThreadsAfter(c, w, a);
    hide Apply, Enabled, MoveEnabled, Moved, HashOk;
    var w' := Apply(c, w, a);
    forall n | 0 <= n < |w'.threads| ensures HashOk(c, n, w'.threads[n]) {
      assert HashOk(c, n, w.threads[n]);
      if a.Worker? && a.node == n {
        LookupHash(c, w, n, a.move);
      }
    }
  }

  /** What an action does to the results: a send appends the thread's result. */
  lemma SentAfter(c: Config, w: World, a: Action)
    requires Valid(c) && Enabled(c, w, a)
    ensures a.Worker? && a.move.Deliver? ==>
              && a.node < |w.threads| && w.threads[a.node].pc.Send?
              && Apply(c, w, a).sent == w.sent + [Result(a.node, w.threads[a.node].step, w.threads[a.node].pc.outcome)]
    ensures !(a.Worker? && a.move.Deliver?) ==> Apply(c, w, a).sent == w.sent
  {
    hide Moved;
  }

  lemma SucceededStays(c: Config, w: World, a: Action, n: nat, i: nat)
    requires Valid(c) && Sized(c, w) && Enabled(c, w, a) && Succeeded(w, n, i)
    ensures Succeeded(Apply(c, w, a), n, i)
  {
    SentAfter(c, w, a);
    ThreadsAfter(c, w, a);
    var r := Result(n, i, Ran(true));
    if r in w.sent {
      if a.Worker? && a.move.Deliver? {
        SentGrows(w.sent, Result(a.node, w.threads[a.node].step, w.threads[a.node].pc.outcome), r);
      }
    } else if a.Worker? && a.node == n {
      assert a.move.Deliver?;
      SentGrows(w.sent, r, r);
    }
  }

  lemma ProvenanceStays(c: Config, w: World, a: Action, m: Entries)
    requires Valid(c) && Sized(c, w) && Enabled(c, w, a) && Provenance(c, w, m)
    ensures Provenance(c, Apply(c, w, a), m)
  {
    var w' := Apply(c, w, a);
    hide Apply, Enabled, Succeeded, IsKey;
    forall key | key in m && Earned(c, w, key, m[key]) ensures Earned(c, w', key, m[key]) {
      var n: nat, i: nat :| IsKey(c, n, i, key) && n in c.plan.applicable[i] && Succeeded(w, n, i)
                  && m[key].node == c.nodes[n].name && m[key].stepName == c.steps[i].name;
      SucceededStays(c, w, a, n, i);
    }
  }

  lemma RecordProvenance(c: Config, w: World, n: nat, now: int)
    requires Valid(c) && Shape(c, w) && HashesOk(c, w) && MoveEnabled(c, w, n, Record(now)) && Provenance(c, w, w.mem)
    ensures Provenance(c, AfterMove(c, w, n, Record(now)), AfterMove(c, w, n, Record(now)).mem)
  {
    var a := Worker(n, Record(now));
    var w' := Apply(c, w, a);
    var i := w.threads[n].step;
    assert ThreadOk(c, n, w.threads[n]) && HashOk(c, n, w.threads[n]);
    var key := State.Key(c.nodes[n].name, w.threads[n].pc.hash);
    ProvenanceStays(c, w, a, w.mem);
    assert Earned(c, w', key, w'.mem[key]) by {
      assert Succeeded(w', n, i);
    }
  }

  /** Memory, snapshot and file hold only earned or initial entries, in that order of size. */
  ghost predicate Cache(c: Config, w: World)
    requires Valid(c)
  {
    && HashesOk(c, w) && State.Keyed(w.mem)
    && Provenance(c, w, w.mem) && Provenance(c, w, State.Contents(w.disk))
    && State.Contents(c.file).Keys <= State.Contents(w.disk).Keys <= w.mem.Keys
    && (w.collector.Write? ==>
          && Provenance(c, w, w.collector.image)
          && State.Contents(w.disk).Keys <= w.collector.image.Keys <= w.mem.Keys)
  }

  lemma CacheInit(c: Config)
    requires Valid(c)
    ensures Cache(c, Init(c)) && Kept(c, Init(c))
  {
    if c.file.Saved? {
      State.CollectIsKeyed(c.file.entries);
    }
  }

  /** How one step touches memory, the snapshot and the file. */
  ghost predicate StoreMove(w: World, w': World)
  {
    && w.mem.Keys <= w'.mem.Keys
    && (State.Contents(w'.disk) == State.Contents(w.disk)
        || (w.collector.Write? && State.Contents(w'.disk) == w.collector.image))
    && (w'.collector.Write? ==>
          || (w.collector == w'.collector && w'.disk == w.disk)
          || (w'.collector.image == w.mem == w'.mem && w'.disk == w.disk))
  }

  lemma WorkerStores(c: Config, w: World, n: nat, m: Move)
    requires Valid(c) && MoveEnabled(c, w, n, m)
    ensures StoreMove(w, AfterMove(c, w, n, m))
  {
    hide Moved, State.Contents, State.Key, Hash;
    var w' := AfterMove(c, w, n, m);
    assert w'.collector == w.collector && w'.disk == w.disk;
  }

  lemma StoreMoves(c: Config, w: World, a: Action)
    requires Valid(c) && Enabled(c, w, a)
    ensures StoreMove(w, Apply(c, w, a))
  {
    hide MoveEnabled, AfterMove, State.Contents;
    if a.Worker? {
      WorkerStores(c, w, a.node, a.move);
    } else if a.SaveDone? {
      State.RoundTrip(a.listing, w.collector.image);
    }
  }

  lemma MemoryStep(c: Config, w: World, a: Action)
    requires Valid(c) && Shape(c, w) && Cache(c, w) && Enabled(c, w, a)
    ensures State.Keyed(Apply(c, w, a).mem) && Provenance(c, Apply(c, w, a), Apply(c, w, a).mem)
  {
    hide Provenance, HashesOk, State.Keyed, State.Contents;
    if a.Worker? && a.move.Record? {
      RecordProvenance(c, w, a.node, a.move.now);
      RecordKeyed(c, w, a.node, a.move.now);
    } else {
      ProvenanceStays(c, w, a, w.mem);
      assert Apply(c, w, a).mem == w.mem;
    }
  }

  lemma RecordKeyed(c: Config, w: World, n: nat, now: int)
    requires Valid(c) && MoveEnabled(c, w, n, Record(now)) && State.Keyed(w.mem)
    ensures State.Keyed(AfterMove(c, w, n, Record(now)).mem)
  {
    var t := w.threads[n];
    KeyedUpdate(w.mem, c.nodes[n].name, c.steps[t.step].name, t.pc.hash, now);
  }

  lemma KeyedUpdate(m: Entries, node: string, step: string, hash: string, now: int)
    requires State.Keyed(m)
    ensures State.Keyed(m[State.Key(node, hash) := State.Entry(node, step, hash, now)])
  {
  }

  lemma CacheStep(c: Config, w: World, a: Action)
    requires Valid(c) && Shape(c, w) && Cache(c, w) && Enabled(c, w, a)
    ensures Cache(c, Apply(c, w, a))
  {
    HashesStep(c, w, a);
    MemoryStep(c, w, a);
    StoreMoves(c, w, a);
    ProvenanceStays(c, w, a, w.mem);
    ProvenanceStays(c, w, a, State.Contents(w.disk));
    if w.collector.Write? {
      ProvenanceStays(c, w, a, w.collector.image);
    }
    StoreStays(c, w, Apply(c, w, a));
  }

  lemma StoreStays(c: Config, w: World, w': World)
    requires Valid(c) && Cache(c, w) && StoreMove(w, w') && HashesOk(c, w') && State.Keyed(w'.mem)
    requires Provenance(c, w', w'.mem) && Provenance(c, w', w.mem) && Provenance(c, w', State.Contents(w.disk))
    requires w.collector.Write? ==> Provenance(c, w', w.collector.image)
    ensures Cache(c, w')
  {
  }

  lemma RecordKeeps(c: Config, w: World, n: nat, now: int)
    requires Valid(c) && HashesOk(c, w) && MoveEnabled(c, w, n, Record(now))
    ensures exists key :: IsKey(c, n, w.threads[n].step, key) && key in AfterMove(c, w, n, Record(now)).mem
  {
    assert HashOk(c, n, w.threads[n]);
    assert State.Key(c.nodes[n].name, w.threads[n].pc.hash) in AfterMove(c, w, n, Record(now)).mem;
  }

  lemma KeptStep(c: Config, w: World, a: Action)
    requires Valid(c) && HashesOk(c, w) && Kept(c, w) && Enabled(c, w, a)
    ensures Kept(c, Apply(c, w, a))
  {
    var w' := Apply(c, w, a);
    StoreMoves(c, w, a);
    forall n: nat, i: nat | Succeeded(w', n, i) ensures exists key :: IsKey(c, n, i, key) && key in w'.mem {
      if Succeeded(w, n, i) {
        hide Succeeded, Apply, Enabled;
        var key :| IsKey(c, n, i, key) && key in w.mem;
        assert key in w'.mem;
      } else {
        NewSuccess(c, w, a, n, i);
        RecordKeeps(c, w, n, a.move.now);
      }
    }
  }

  /** Success first shows at the move that marks the entry. */
  lemma NewSuccess(c: Config, w: World, a: Action, n: nat, i: nat)
    requires Valid(c) && Enabled(c, w, a) && Succeeded(Apply(c, w, a), n, i) && !Succeeded(w, n, i)
    ensures a.Worker? && a.node == n && a.move.Record? && w.threads[n].step == i
  {
    SentAfter(c, w, a);
    ThreadsAfter(c, w, a);
    if a.Worker? {
      if a.move.Deliver? {
        SentGrows(w.sent, Result(a.node, w.threads[a.node].step, w.threads[a.node].pc.outcome),
                  Result(n, i, Ran(true)));
      } else if a.node == n && !a.move.Record? {
        NoNewSuccess(c, w, n, a.move, i);
      }
    }
    hide Apply, Enabled, MoveEnabled;
  }

  lemma NoNewSuccess(c: Config, w: World, n: nat, m: Move, i: nat)
    requires Valid(c) && MoveEnabled(c, w, n, m) && !m.Record?
    ensures Moved(c, w, n, m) != Thread(i, Send(Ran(true)))
  {
  }

  lemma SentGrows(rs: seq<Result>, r: Result, x: Result)
    ensures x in rs + [r] <==> x in rs || x == r
  {
  }

  lemma {:induction false} CacheAlong(c: Config, tr: seq<World>, k: nat)
    requires Valid(c) && IsTrace(c, tr) && k < |tr|
    ensures Cache(c, tr[k]) && Kept(c, tr[k])
  {
    if k == 0 {
      CacheInit(c);
    } else {
      CacheAlong(c, tr, k - 1);
      var a := ActionAt(c, tr, k - 1);
      hide Cache, Kept, Apply;
      CacheStep(c, tr[k - 1], a);
      KeptStep(c, tr[k - 1], a);
    }
  }

  // ---------------------------------------------------------------------------
  // Crash consistency

  ghost predicate WasInMemory(tr: seq<World>, k: nat, m: Entries)
  {
    exists j :: 0 <= j <= k < |tr| && tr[j].mem == m
  }

  /** At every point of every run the state file holds what memory held at that or an
      earlier point (at the start, what was loaded), and nothing but initial entries and
      entries of successful executions. */
  lemma CrashConsistency(c: Config, tr: seq<World>, k: nat)
    requires Valid(c) && IsTrace(c, tr) && k < |tr|
    ensures WasInMemory(tr, k, State.Contents(tr[k].disk))
    ensures Provenance(c, tr[k], State.Contents(tr[k].disk))
  {
    FileWasInMemory(c, tr, k);
    CacheAlong(c, tr, k);
  }

  lemma StoreAlong(c: Config, tr: seq<World>, k: nat)
    requires Valid(c) && IsTrace(c, tr) && k < |tr| - 1
    ensures StoreMove(tr[k], tr[k + 1])
  {
    var a := ActionAt(c, tr, k);
    StoreMoves(c, tr[k], a);
  }

  lemma {:induction false} FileWasInMemory(c: Config, tr: seq<World>, k: nat)
    requires Valid(c) && IsTrace(c, tr) && k < |tr|
    ensures WasInMemory(tr, k, State.Contents(tr[k].disk))
    ensures tr[k].collector.Write? ==> WasInMemory(tr, k, tr[k].collector.image)
  {
    if k == 0 {
      assert tr[0].mem == State.Contents(tr[0].disk);
    } else {
      FileWasInMemory(c, tr, k - 1);
      StoreAlong(c, tr, k - 1);
      FileWas(tr, k);
    }
  }

  lemma FileWas(tr: seq<World>, k: nat)
    requires 0 < k < |tr| && StoreMove(tr[k - 1], tr[k])
    requires WasInMemory(tr, k - 1, State.Contents(tr[k - 1].disk))
    requires tr[k - 1].collector.Write? ==> WasInMemory(tr, k - 1, tr[k - 1].collector.image)
    ensures WasInMemory(tr, k, State.Contents(tr[k].disk))
    ensures tr[k].collector.Write? ==> WasInMemory(tr, k, tr[k].collector.image)
  {
    MemoryWas(tr, k);
  }

  lemma MemoryWas(tr: seq<World>, k: nat)
    requires 0 < k < |tr|
    ensures forall m :: WasInMemory(tr, k - 1, m) ==> WasInMemory(tr, k, m)
    ensures WasInMemory(tr, k, tr[k].mem)
  {
  }

  /** The file never loses a key, from the first world of a run to the last. */
  lemma {:induction false} NoKeyIsLost(c: Config, tr: seq<World>, j: nat, k: nat)
    requires Valid(c) && IsTrace(c, tr) && j <= k < |tr|
    ensures State.Contents(tr[j].disk).Keys <= State.Contents(tr[k].disk).Keys
    ensures tr[j].mem.Keys <= tr[k].mem.Keys
    decreases k - j
  {
    hide Provenance, HashesOk, Kept, State.Keyed, State.Contents, IsTrace;
    if j < k {
      NoKeyIsLost(c, tr, j, k - 1);
      CacheAlong(c, tr, k - 1);
      StoreAlong(c, tr, k - 1);
    }
  }

  // ---------------------------------------------------------------------------
  // The file at the end of a run

  /** Unless the last save failed, memory differs from the file only as long as a result of
      an execution is still on its way to a save; the next save makes up for a failed one. */
  ghost predicate Settled(w: World)
  {
    || UnderWay(w)
    || (if w.collector.Write? then w.collector.image == w.mem else w.saveFailed || w.mem == State.Contents(w.disk))
  }

  /** A result of an execution on its way: not sent, not received, or received and not yet written. */
  ghost predicate UnderWay(w: World)
  {
    || (exists n :: 0 <= n < |w.threads| && w.threads[n].pc == Send(Ran(true)))
    || (exists x :: w.taken <= x < |w.sent| && w.sent[x].outcome.Ran?)
    || w.collector.Snapshot?
  }

  lemma SentStaysUnderWay(c: Config, w: World, a: Action, x: nat)
    requires Valid(c) && Enabled(c, w, a) && w.taken <= x < |w.sent| && w.sent[x].outcome.Ran?
    ensures UnderWay(Apply(c, w, a))
  {
    var w' := Apply(c, w, a);
    assert w'.sent[x] == w.sent[x];
  }

  lemma ThreadStaysUnderWay(c: Config, w: World, a: Action, n: nat)
    requires Valid(c) && Enabled(c, w, a) && n < |w.threads|
             && w.threads[n].pc == Send(Ran(true)) && w.taken <= |w.sent|
    ensures UnderWay(Apply(c, w, a))
  {
    var w' := Apply(c, w, a);
    if a.Worker? && a.node == n {
      assert w'.sent[|w.sent|] == Result(n, w.threads[n].step, Ran(true));
    } else {
      assert w'.threads[n] == w.threads[n];
    }
  }

  lemma SettledStep(c: Config, w: World, a: Action)
    requires Valid(c) && Shape(c, w) && Settled(w) && Enabled(c, w, a)
    ensures Settled(Apply(c, w, a))
  {
    if x :| w.taken <= x < |w.sent| && w.sent[x].outcome.Ran? {
      SentStaysUnderWay(c, w, a, x);
    } else if n :| 0 <= n < |w.threads| && w.threads[n].pc == Send(Ran(true)) {
      ThreadStaysUnderWay(c, w, a, n);
    } else if a.Worker? {
      QuietSettles(c, w, a.node, a.move);
    } else if a.SaveDone? {
      State.RoundTrip(a.listing, w.collector.image);
    }
  }

  lemma QuietSettles(c: Config, w: World, n: nat, m: Move)
    requires Valid(c) && MoveEnabled(c, w, n, m)
    requires Settled(w) && (UnderWay(w) ==> w.collector.Snapshot?)
    ensures Settled(AfterMove(c, w, n, m))
  {
    var w' := AfterMove(c, w, n, m);
    if m.Record? {
      assert w'.threads[n].pc == Send(Ran(true));
      assert UnderWay(w');
    }
  }

  lemma {:induction false} SettledAlong(c: Config, tr: seq<World>, k: nat)
    requires Valid(c) && IsTrace(c, tr) && k < |tr|
    ensures Settled(tr[k])
  {
    if k > 0 {
      SettledAlong(c, tr, k - 1);
      var a := ActionAt(c, tr, k - 1);
      SettledStep(c, tr[k - 1], a);
    }
  }

  /** Once the collector loop has ended and its last save was done, the file holds exactly memory. */
  lemma FileEqualsMemory(c: Config, w: World)
    requires Valid(c) && Reachable(c, w) && Complete(w) && !w.saveFailed
    ensures State.Contents(w.disk) == w.mem
  {
    var tr :| IsTrace(c, tr) && Last(tr) == w;
    SettledAlong(c, tr, |tr| - 1);
    CompleteMeansFinished(c, w);
  }

  // ---------------------------------------------------------------------------
  // Totals

  function Count(rs: seq<Result>, o: Outcome): nat
  {
    if rs == [] then 0 else Count(rs[..|rs| - 1], o) + if rs[|rs| - 1].outcome == o then 1 else 0
  }

  ghost predicate Totals(w: World)
  {
    && w.taken <= |w.sent|
    && w.succeeded == Count(w.sent[..w.taken], Ran(true))
    && w.failed == Count(w.sent[..w.taken], Ran(false))
  }

  lemma TakeTotals(c: Config, w: World)
    requires Valid(c) && Totals(w) && Enabled(c, w, Take)
    ensures Totals(Apply(c, w, Take))
  {
    var w' := Apply(c, w, Take);
    assert w'.sent == w.sent && w'.taken == w.taken + 1;
    CountNext(w.sent, w.taken);
    hide Count;
  }

  lemma CountNext(rs: seq<Result>, k: nat)
    requires k < |rs|
    ensures forall o :: Count(rs[..k + 1], o) == Count(rs[..k], o) + if rs[k].outcome == o then 1 else 0
  {
    assert rs[..k + 1][..k] == rs[..k];
  }

  lemma OtherTotals(c: Config, w: World, a: Action)
    requires Valid(c) && Sized(c, w) && Enabled(c, w, a) && !a.Take?
    ensures var w' := Apply(c, w, a);
            w'.taken == w.taken && w.sent <= w'.sent && w'.succeeded == w.succeeded && w'.failed == w.failed
  {
    hide Moved, AfterMove, MoveEnabled;
    if a.Worker? { WorkerLeaves(c, w, a.node, a.move); }
  }

  lemma TotalsStep(c: Config, w: World, a: Action)
    requires Valid(c) && Sized(c, w) && Totals(w) && Enabled(c, w, a)
    ensures Totals(Apply(c, w, a))
  {
    if a.Take? {
      TakeTotals(c, w);
    } else {
      OtherTotals(c, w, a);
      hide Apply, Enabled, Count;
      assert Apply(c, w, a).sent[..w.taken] == w.sent[..w.taken];
    }
  }

  lemma {:induction false} TotalsAlong(c: Config, tr: seq<World>, k: nat)
    requires Valid(c) && IsTrace(c, tr) && k < |tr|
    ensures Totals(tr[k])
  {
    if k > 0 {
      TotalsAlong(c, tr, k - 1);
      var a := ActionAt(c, tr, k - 1);
      hide Totals, Apply, Enabled, IsTrace;
      TotalsStep(c, tr[k - 1], a);
    }
  }

  lemma {:induction false} CountsSum(rs: seq<Result>)
    ensures Count(rs, Skipped) + Count(rs, Ran(true)) + Count(rs, Ran(false)) == |rs|
  {
    if rs != [] {
      CountsSum(rs[..|rs| - 1]);
      var o := rs[|rs| - 1].outcome;
      assert o == Skipped || o == Ran(true) || o == Ran(false);
    }
  }

  /** A completed uncancelled run accounts for every applicable pair: what it skipped,
      what succeeded and what failed add up to the initial counters. */
  lemma TotalsAddUp(c: Config, w: World)
    requires Valid(c) && Reachable(c, w) && Complete(w) && !w.cancelled
    ensures Count(w.sent, Skipped) + w.succeeded + w.failed == Expected(c.plan, |c.plan.needs|)
  {
    var tr :| IsTrace(c, tr) && Last(tr) == w;
    TotalsAlong(c, tr, |tr| - 1);
    CompleteMeansFinished(c, w);
    ExactlyOnce(c, w);
    assert w.sent[..w.taken] == w.sent;
    CountsSum(w.sent);
  }
}
