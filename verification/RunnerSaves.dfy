/** What a save secures, and that a run can end with its saves done. */
module RunnerSaves {
  import opened Runner
  import opened RunnerSafety
  import opened RunnerLiveness
  import opened RunnerCache
  import State

  // ---------------------------------------------------------------------------
  // A handled success is on disk

  /** The x-th result is a success that the collector has received. */
  predicate Handled(w: World, x: nat)
  {
    x < w.taken <= |w.sent| && w.sent[x].outcome == Ran(true)
  }

  /** The pair of the x-th result is in `m`. */
  ghost predicate Holds(c: Config, m: Entries, r: Result)
    requires Valid(c)
  {
    exists key :: IsKey(c, r.node, r.step, key) && key in m
  }

  /** Handled successes are in the snapshot being written, and after a save that worked
      they are in the file. */
  ghost predicate Secured(c: Config, w: World)
    requires Valid(c)
  {
    forall x: nat :: Handled(w, x) ==>
      && (w.collector.Write? ==> Holds(c, w.collector.image, w.sent[x]))
      && ((w.collector.Receive? || w.collector.Ended?) && !w.saveFailed ==> Holds(c, State.Contents(w.disk), w.sent[x]))
  }

  lemma SnapshotHolds(c: Config, w: World)
    requires Valid(c) && Kept(c, w) && Enabled(c, w, TakeSnapshot)
    ensures Secured(c, Apply(c, w, TakeSnapshot))
  {
    hide IsKey;
    forall x: nat | Handled(w, x) ensures Holds(c, w.mem, w.sent[x]) {
      var r := w.sent[x];
      assert r == Result(r.node, r.step, Ran(true)) && r in w.sent;
      assert Succeeded(w, r.node, r.step);
    }
  }

  lemma SaveSecures(c: Config, w: World, listing: seq<State.Entry>)
    requires Valid(c) && Secured(c, w) && Enabled(c, w, SaveDone(listing))
    ensures Secured(c, Apply(c, w, SaveDone(listing)))
  {
    hide Holds;
    State.RoundTrip(listing, w.collector.image);
    assert forall x: nat :: Handled(w, x) ==> Holds(c, w.collector.image, w.sent[x]);
  }

  lemma TakeSecures(c: Config, w: World)
    requires Valid(c) && Secured(c, w) && Enabled(c, w, Take)
    ensures Secured(c, Apply(c, w, Take))
  {
    hide Holds;
    var w' := Apply(c, w, Take);
    forall x: nat | Handled(w', x) && x != w.taken ensures Handled(w, x) {}
  }

  /** No other action takes a result, touches the file or starts a write. */
  lemma OthersKeep(c: Config, w: World, a: Action)
    requires Valid(c) && Sized(c, w) && Enabled(c, w, a) && !a.Take? && !a.TakeSnapshot? && !a.SaveDone?
    ensures var w' := Apply(c, w, a);
            && w'.taken == w.taken && w.sent <= w'.sent && w'.disk == w.disk
            && (w'.collector == w.collector || a.SaveFail? || a.EndCollect?)
            && (a.SaveFail? ==> w'.saveFailed) && (!a.SaveFail? ==> w'.saveFailed == w.saveFailed)
            && (a.EndCollect? ==> w.collector.Receive? && w'.collector.Ended?)
            && (a.SaveFail? ==> w'.collector.Receive?)
  {
    hide Moved, AfterMove, MoveEnabled;
    if a.Worker? { WorkerLeaves(c, w, a.node, a.move); }
  }

  lemma SecuredStep(c: Config, w: World, a: Action)
    requires Valid(c) && Sized(c, w) && Kept(c, w) && Secured(c, w) && Enabled(c, w, a)
    ensures Secured(c, Apply(c, w, a))
  {
    if a.Take? {
      TakeSecures(c, w);
    } else if a.TakeSnapshot? {
      SnapshotHolds(c, w);
    } else if a.SaveDone? {
      SaveSecures(c, w, a.listing);
    } else {
      OthersKeep(c, w, a);
      hide Apply, Enabled, Holds, Kept;
      var w' := Apply(c, w, a);
      forall x: nat | Handled(w', x) ensures Handled(w, x) && w'.sent[x] == w.sent[x] {}
      assert Secured(c, w');
    }
  }

  lemma {:induction false} SecuredAlong(c: Config, tr: seq<World>, k: nat)
    requires Valid(c) && IsTrace(c, tr) && k < |tr|
    ensures Secured(c, tr[k])
  {
    if k > 0 {
      SecuredAlong(c, tr, k - 1);
      CacheAlong(c, tr, k - 1);
      var a := ActionAt(c, tr, k - 1);
      hide Secured, Kept, Cache, Apply, Enabled;
      SecuredStep(c, tr[k - 1], a);
    }
  }

  /** Durability: once the collector is through with a successful result and the last save
      worked, the file knows the pair, then and at every later point of the run, whatever
      saves fail afterwards and wherever the run is cut off. */
  lemma ResultIsDurable(c: Config, tr: seq<World>, j: nat, k: nat, x: nat)
    requires Valid(c) && IsTrace(c, tr) && j <= k < |tr|
    requires Handled(tr[j], x) && tr[j].collector.Receive? && !tr[j].saveFailed
    ensures Holds(c, State.Contents(tr[k].disk), tr[j].sent[x])
  {
    SecuredAlong(c, tr, j);
    NoKeyIsLost(c, tr, j, k);
    hide IsKey, State.Contents;
    assert Holds(c, State.Contents(tr[j].disk), tr[j].sent[x]);
  }

  // ---------------------------------------------------------------------------
  // Runs that end with their saves done exist

  lemma ImageIsKeyed(c: Config, tr: seq<World>)
    requires Valid(c) && IsTrace(c, tr) && Last(tr).collector.Write?
    ensures State.Keyed(Last(tr).collector.image)
  {
    FileWasInMemory(c, tr, |tr| - 1);
    var j :| 0 <= j < |tr| && tr[j].mem == Last(tr).collector.image;
    CacheAlong(c, tr, j);
  }

  /** A step other than a cancellation that fails no save. */
  lemma SavingStep(c: Config, tr: seq<World>) returns (a: Action)
    requires Valid(c) && IsTrace(c, tr) && !Halted(c, Last(tr))
    ensures Enabled(c, Last(tr), a) && !a.Cancel? && !a.SaveFail?
  {
    a :| Enabled(c, Last(tr), a) && !a.Cancel?;
    if a.SaveFail? {
      ImageIsKeyed(c, tr);
      var listing := State.SomeListing(Last(tr).collector.image);
      a := SaveDone(listing);
    }
  }

  lemma SavingKeeps(c: Config, w: World, a: Action)
    requires Valid(c) && Enabled(c, w, a) && !a.Cancel? && !a.SaveFail? && !w.saveFailed
    ensures !Apply(c, w, a).saveFailed && Apply(c, w, a).cancelled == w.cancelled
  {
    hide Moved, AfterMove, MoveEnabled;
    if a.Worker? { WorkerLeaves(c, w, a.node, a.move); }
  }

  /** Every run with no failed save behind it can be carried on to a halt without a
      cancellation and without a failing save. */
  lemma {:induction false} SaveToHalt(c: Config, tr: seq<World>) returns (full: seq<World>)
    requires Valid(c) && IsTrace(c, tr) && !Last(tr).saveFailed
    ensures IsTrace(c, full) && tr <= full && Halted(c, Last(full))
    ensures !Last(full).saveFailed && Last(full).cancelled == Last(tr).cancelled
    decreases Measure(c, Init(c)) - |tr|
  {
    if Halted(c, Last(tr)) {
      full := tr;
    } else {
      var a := SavingStep(c, tr);
      SavingKeeps(c, Last(tr), a);
      hide Enabled, Apply, Halted, IsTrace;
      var longer := Extend(c, tr, a);
      full := SaveToHalt(c, longer);
    }
  }

  /** Every playbook that can finish has an uncancelled run that ends with its saves done,
      from any state file. */
  lemma SavedRunExists(c: Config) returns (w: World)
    requires Valid(c) && Releasable(c.plan)
    ensures Reachable(c, w) && Complete(w) && AllFinished(c, w) && !w.cancelled && !w.saveFailed
  {
    var tr := SaveToHalt(c, [Init(c)]);
    w := Last(tr);
    ReleasableFinishes(c, tr);
  }
}
