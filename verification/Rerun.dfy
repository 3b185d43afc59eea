/** What the cache decides: which pairs a run executes, and a second run of a playbook
    against the first. */
module Rerun {
  import opened Runner
  import opened RunnerSafety
  import opened RunnerLiveness
  import opened RunnerCache
  import State
  import Template

  // ---------------------------------------------------------------------------
  // Hypotheses on a playbook and its nodes

  /** Expansion gives one text per command, and digests do not collide. */
  ghost predicate IdealHash(c: Config)
    requires Valid(c)
  {
    && (forall i :: 0 <= i < |c.steps| ==> Template.OrderIndependent(c.steps[i].command, c.vars))
    && NoCollisions(c)
  }

  /** Digests have one width and differ on different preimages of this run. */
  ghost predicate NoCollisions(c: Config)
    requires Valid(c)
  {
    && (forall x, y :: |c.digest(x)| == |c.digest(y)|)
    && (forall n, i, o, m, j, p :: IsPreimage(c, n, i, o) && IsPreimage(c, m, j, p) && c.digest(o) == c.digest(p) ==>
          o == p)
  }

  ghost predicate IsPreimage(c: Config, n: nat, i: nat, text: string)
    requires Valid(c)
  {
    n < |c.nodes| && i < |c.steps| &&
    exists order :: Template.IsOrder(order, c.vars)
                    && text == State.Preimage(c.nodes[n].name, c.steps[i].name,
                                                Template.ExpandIn(c.steps[i].command, c.vars, order))
  }

  /** Unique node names; unique step names of which none goes on with a pipe after another. */
  ghost predicate DistinctNames(c: Config)
  {
    && (forall n, m :: 0 <= n < m < |c.nodes| ==> c.nodes[n].name != c.nodes[m].name)
    && (forall i, j :: 0 <= i < j < |c.steps| ==> c.steps[i].name != c.steps[j].name)
    && (forall i, j :: 0 <= i < j < |c.steps| ==> !State.Overlap(c.steps[i].name, c.steps[j].name))
  }

  ghost predicate Ideal(c: Config)
    requires Valid(c)
  {
    IdealHash(c) && DistinctNames(c)
  }

  /** Different pairs have different keys. */
  lemma KeysDiffer(c: Config, n: nat, i: nat, m: nat, j: nat, key: string)
    requires Valid(c) && Ideal(c) && IsKey(c, n, i, key) && IsKey(c, m, j, key)
    ensures n == m && i == j
  {
    var o :| Template.IsOrder(o, c.vars) && key == State.Key(c.nodes[n].name, Hash(c, n, i, o));
    var p :| Template.IsOrder(p, c.vars) && key == State.Key(c.nodes[m].name, Hash(c, m, j, p));
    State.KeyInjective(c.nodes[n].name, Hash(c, n, i, o), c.nodes[m].name, Hash(c, m, j, p));
    var x := State.Preimage(c.nodes[n].name, c.steps[i].name, Template.ExpandIn(c.steps[i].command, c.vars, o));
    var y := State.Preimage(c.nodes[m].name, c.steps[j].name, Template.ExpandIn(c.steps[j].command, c.vars, p));
    assert IsPreimage(c, n, i, x) && IsPreimage(c, m, j, y);
    assert x == y;
    State.PreimageInjective(c.nodes[n].name, c.steps[i].name, Template.ExpandIn(c.steps[i].command, c.vars, o),
                            c.steps[j].name, Template.ExpandIn(c.steps[j].command, c.vars, p));
  }

  /** One pair has one key. */
  lemma KeyIsUnique(c: Config, n: nat, i: nat, k1: string, k2: string)
    requires Valid(c) && Ideal(c) && IsKey(c, n, i, k1) && IsKey(c, n, i, k2)
    ensures k1 == k2
  {
    var o :| Template.IsOrder(o, c.vars) && k1 == State.Key(c.nodes[n].name, Hash(c, n, i, o));
    var p :| Template.IsOrder(p, c.vars) && k2 == State.Key(c.nodes[n].name, Hash(c, n, i, p));
    assert Template.OrderIndependent(c.steps[i].command, c.vars);
  }

  /** Without collisions a pair has one key, in every walk over the variables, exactly when
      the expansion of its command does not depend on the walk. */
  lemma OneKeyWhen(c: Config, n: nat, i: nat)
    requires Valid(c) && NoCollisions(c) && n < |c.nodes| && i < |c.steps|
    ensures (forall k1, k2 :: IsKey(c, n, i, k1) && IsKey(c, n, i, k2) ==> k1 == k2) <==>
            Template.OrderIndependent(c.steps[i].command, c.vars)
  {
    if Template.OrderIndependent(c.steps[i].command, c.vars) {
      forall k1, k2 | IsKey(c, n, i, k1) && IsKey(c, n, i, k2) ensures k1 == k2 {
        var o :| Template.IsOrder(o, c.vars) && k1 == State.Key(c.nodes[n].name, Hash(c, n, i, o));
        var p :| Template.IsOrder(p, c.vars) && k2 == State.Key(c.nodes[n].name, Hash(c, n, i, p));
      }
    } else {
      var o, p :| Template.IsOrder(o, c.vars) && Template.IsOrder(p, c.vars)
                  && Template.ExpandIn(c.steps[i].command, c.vars, o) !=
                     Template.ExpandIn(c.steps[i].command, c.vars, p);
      WalksGiveKeys(c, n, i, o, p);
    }
  }

  lemma WalksGiveKeys(c: Config, n: nat, i: nat, o: seq<string>, p: seq<string>)
    requires Valid(c) && NoCollisions(c) && n < |c.nodes| && i < |c.steps|
    requires Template.IsOrder(o, c.vars) && Template.IsOrder(p, c.vars)
    requires Template.ExpandIn(c.steps[i].command, c.vars, o) != Template.ExpandIn(c.steps[i].command, c.vars, p)
    ensures exists k1, k2 :: IsKey(c, n, i, k1) && IsKey(c, n, i, k2) && k1 != k2
  {
    var node, step := c.nodes[n].name, c.steps[i].name;
    var s, t := Template.ExpandIn(c.steps[i].command, c.vars, o), Template.ExpandIn(c.steps[i].command, c.vars, p);
    var x, y := State.Preimage(node, step, s), State.Preimage(node, step, t);
    assert IsPreimage(c, n, i, x) && IsPreimage(c, n, i, y);
    assert x != y by { assert x[|node| + 1 + |step| + 1..] == s && y[|node| + 1 + |step| + 1..] == t; }
    var k1, k2 := State.Key(node, Hash(c, n, i, o)), State.Key(node, Hash(c, n, i, p));
    assert k1[|node| + 1..] == c.digest(x) && k2[|node| + 1..] == c.digest(y);
    assert IsKey(c, n, i, k1) && IsKey(c, n, i, k2);
  }

  /** The pair is in the cache `m`. */
  ghost predicate Known(c: Config, m: Entries, n: nat, i: nat)
    requires Valid(c)
  {
    exists key :: IsKey(c, n, i, key) && key in m
  }

  // ---------------------------------------------------------------------------
  // What the cache check decides

  /** Signs that the check of pair (n, i) found it in the cache, or did not. */
  ghost predicate FoundIt(w: World, n: nat, i: nat)
  {
    (n < |w.threads| && w.threads[n] == Thread(i, Send(Skipped))) || Result(n, i, Skipped) in w.sent
  }

  ghost predicate RunIt(w: World, n: nat, i: nat)
  {
    || (n < |w.threads| && w.threads[n].step == i &&
          (w.threads[n].pc.Exec? || w.threads[n].pc.Mark? || (w.threads[n].pc.Send? && w.threads[n].pc.outcome.Ran?)))
    || Result(n, i, Ran(true)) in w.sent || Result(n, i, Ran(false)) in w.sent
  }

  ghost predicate Decided(c: Config, w: World)
    requires Valid(c)
  {
    && (forall n: nat, i: nat :: FoundIt(w, n, i) ==> !c.force && Known(c, State.Contents(c.file), n, i))
    && (forall n: nat, i: nat :: RunIt(w, n, i) ==> c.force || !Known(c, State.Contents(c.file), n, i))
  }

  /** While a goroutine checks a pair, memory knows the pair only if the file did. */
  lemma CheckSeesFile(c: Config, w: World, n: nat, key: string)
    requires Valid(c) && Ideal(c) && Shape(c, w) && Results(c, w) && Cache(c, w)
    requires n < |w.threads| && w.threads[n].pc.Check? && IsKey(c, n, w.threads[n].step, key)
    ensures key in w.mem <==> Known(c, State.Contents(c.file), n, w.threads[n].step)
  {
    var i := w.threads[n].step;
    if Known(c, State.Contents(c.file), n, i) {
      var k :| IsKey(c, n, i, k) && k in State.Contents(c.file);
      KeyIsUnique(c, n, i, k, key);
    } else if key in w.mem {
      MarkedByItself(c, w, n, i, key);
      NotYetReported(c, w, n);
    }
  }

  /** Only the pair itself can have marked its key. */
  lemma MarkedByItself(c: Config, w: World, n: nat, i: nat, key: string)
    requires Valid(c) && Ideal(c) && Provenance(c, w, w.mem)
    requires IsKey(c, n, i, key) && key in w.mem && key !in State.Contents(c.file)
    ensures Succeeded(w, n, i)
  {
    assert Earned(c, w, key, w.mem[key]);
    var m: nat, j: nat :| IsKey(c, m, j, key) && Succeeded(w, m, j);
    hide Provenance, Ideal, IsKey, Earned;
    KeysDiffer(c, n, i, m, j, key);
  }

  lemma SentIsDue(c: Config, w: World, r: Result)
    requires Valid(c) && Results(c, w) && r in w.sent
    ensures Due(c, w, r.node, r.step)
  {
    var x :| 0 <= x < |w.sent| && w.sent[x] == r;
    assert Due(c, w, w.sent[x].node, w.sent[x].step);
  }

  lemma NotYetReported(c: Config, w: World, n: nat)
    requires Valid(c) && Results(c, w) && n < |w.threads| && w.threads[n].pc.Check?
    ensures !Succeeded(w, n, w.threads[n].step)
  {
    var r := Result(n, w.threads[n].step, Ran(true));
    if r in w.sent {
      SentIsDue(c, w, r);
    }
  }

  lemma LookupDecides(c: Config, w: World, n: nat, order: seq<string>)
    requires Valid(c) && Ideal(c) && Shape(c, w) && Results(c, w) && Cache(c, w)
    requires MoveEnabled(c, w, n, Lookup(order))
    ensures Moved(c, w, n, Lookup(order)).pc == Send(Skipped) ==>
              !c.force && Known(c, State.Contents(c.file), n, w.threads[n].step)
    ensures Moved(c, w, n, Lookup(order)).pc.Exec? ==>
              c.force || !Known(c, State.Contents(c.file), n, w.threads[n].step)
    ensures Moved(c, w, n, Lookup(order)).pc == Send(Skipped) || Moved(c, w, n, Lookup(order)).pc.Exec?
  {
    var i := w.threads[n].step;
    var key := State.Key(c.nodes[n].name, Hash(c, n, i, order));
    assert IsKey(c, n, i, key);
    hide Cache, IsKey, Ideal, Shape, Results;
    CheckSeesFile(c, w, n, key);
  }

  /** A new sign appears only at the check itself. */
  lemma NewSign(c: Config, w: World, a: Action, n: nat, i: nat)
    requires Valid(c) && Sized(c, w) && Enabled(c, w, a)
    ensures (FoundIt(Apply(c, w, a), n, i) && !FoundIt(w, n, i)) || (RunIt(Apply(c, w, a), n, i) && !RunIt(w, n, i)) ==>
              a.Worker? && a.node == n && a.move.Lookup? && w.threads[n].step == i
    ensures a.Worker? && a.move.Lookup? && FoundIt(Apply(c, w, a), n, i) && !FoundIt(w, n, i) ==>
              Moved(c, w, n, a.move).pc == Send(Skipped)
    ensures a.Worker? && a.move.Lookup? && RunIt(Apply(c, w, a), n, i) && !RunIt(w, n, i) ==>
              Moved(c, w, n, a.move).pc.Exec?
  {
    SentAfter(c, w, a);
    ThreadsAfter(c, w, a);
    if a.Worker? && a.move.Deliver? {
      var r := Result(a.node, w.threads[a.node].step, w.threads[a.node].pc.outcome);
      SentGrows(w.sent, r, Result(n, i, Skipped));
      SentGrows(w.sent, r, Result(n, i, Ran(true)));
      SentGrows(w.sent, r, Result(n, i, Ran(false)));
    }
    hide Apply, Enabled;
  }

  lemma DecidedStep(c: Config, w: World, a: Action)
    requires Valid(c) && Ideal(c) && Shape(c, w) && Results(c, w) && Cache(c, w) && Decided(c, w) && Enabled(c, w, a)
    ensures Decided(c, Apply(c, w, a))
  {
    var w' := Apply(c, w, a);
    hide Cache, Ideal, Shape, Results, FoundIt, RunIt, Known, Apply;
    forall n: nat, i: nat
      ensures FoundIt(w', n, i) ==> !c.force && Known(c, State.Contents(c.file), n, i)
      ensures RunIt(w', n, i) ==> c.force || !Known(c, State.Contents(c.file), n, i)
    {
      NewSign(c, w, a, n, i);
      if a.Worker? && a.move.Lookup? && a.node == n {
        LookupDecides(c, w, n, a.move.order);
      }
    }
  }

  lemma {:induction false} DecidedAlong(c: Config, tr: seq<World>, k: nat)
    requires Valid(c) && Ideal(c) && IsTrace(c, tr) && k < |tr|
    ensures Decided(c, tr[k])
  {
    if k > 0 {
      DecidedAlong(c, tr, k - 1);
      InvAlong(c, tr, k - 1);
      CacheAlong(c, tr, k - 1);
      var a := ActionAt(c, tr, k - 1);
      hide Cache, Ideal, Shape, Results, Decided, Counters, Barrier, Tally, Apply;
      DecidedStep(c, tr[k - 1], a);
    }
  }

  /** In an uncancelled completed run, with unique names and an ideal hash: an
      applicable pair is skipped exactly when the state file knew it and force is off,
      and executed otherwise, whatever the other goroutines do. */
  lemma CacheDecides(c: Config, w: World, n: nat, i: nat)
    requires Valid(c) && Ideal(c) && Reachable(c, w) && Complete(w) && !w.cancelled
    requires i < |c.plan.needs|
    ensures n !in c.plan.applicable[i] ==> !Reported(w, n, i)
    ensures n in c.plan.applicable[i] ==>
              (Result(n, i, Skipped) in w.sent <==> !c.force && Known(c, State.Contents(c.file), n, i))
    ensures Executed(w, n, i) <==> n in c.plan.applicable[i] && (c.force || !Known(c, State.Contents(c.file), n, i))
  {
    var tr :| IsTrace(c, tr) && Last(tr) == w;
    DecidedAlong(c, tr, |tr| - 1);
    CompleteMeansFinished(c, w);
    ExactlyOnce(c, w);
    hide Ideal, Known, AllFinished;
    assert Reported(w, n, i) <==> n in c.plan.applicable[i];
    if Executed(w, n, i) { assert RunIt(w, n, i); ReportedOnce(w, n, i); }
    if Result(n, i, Skipped) in w.sent { assert FoundIt(w, n, i); }
    if n in c.plan.applicable[i] {
      var x :| 0 <= x < |w.sent| && w.sent[x].node == n && w.sent[x].step == i;
      var o := w.sent[x].outcome;
      assert Result(n, i, o) in w.sent && (o == Skipped || o == Ran(true) || o == Ran(false));
    }
  }

  /** The step was run on the node, successfully or not. */
  ghost predicate Executed(w: World, n: nat, i: nat)
  {
    Result(n, i, Ran(true)) in w.sent || Result(n, i, Ran(false)) in w.sent
  }

  lemma ReportedOnce(w: World, n: nat, i: nat)
    requires Executed(w, n, i)
    ensures Reported(w, n, i)
  {
    var r :| r in w.sent && r.node == n && r.step == i;
    var x :| 0 <= x < |w.sent| && w.sent[x] == r;
  }

  /** `verdict` says how each execution of the run ended. */
  ghost predicate EndsAs(w: World, verdict: (nat, nat) -> bool)
  {
    forall r :: r in w.sent && r.outcome.Ran? ==> r.outcome.success == verdict(r.node, r.step)
  }

  /** What a completed run has sent, whatever its interleaving. */
  lemma SentWhen(c: Config, w: World, verdict: (nat, nat) -> bool, r: Result)
    requires Valid(c) && Ideal(c) && Reachable(c, w) && Complete(w) && !w.cancelled && EndsAs(w, verdict)
    ensures r in w.sent <==>
            && r.step < |c.plan.needs| && r.node in c.plan.applicable[r.step]
            && r.outcome == if !c.force && Known(c, State.Contents(c.file), r.node, r.step) then Skipped
                            else Ran(verdict(r.node, r.step))
  {
    var n, i := r.node, r.step;
    InvReachable(c, w);
    if r in w.sent { SentIsDue(c, w, r); }
    hide Ideal, Inv, Known, Reachable, Reported;
    if i < |c.plan.needs| {
      CacheDecides(c, w, n, i);
      if r in w.sent { ReportedByOutcome(w, n, i, r.outcome); }
      assert forall s :: Result(n, i, Ran(s)) in w.sent ==> s == verdict(n, i);
    }
  }

  lemma ReportedByOutcome(w: World, n: nat, i: nat, o: Outcome)
    requires Result(n, i, o) in w.sent
    ensures o == Skipped || Executed(w, n, i)
  {
    assert o == Skipped || o == Ran(true) || o == Ran(false);
  }

  /** Two completed uncancelled runs of one configuration whose executions end alike send the
      same results: the interleaving decides only their order. */
  lemma InterleavingDoesNotMatter(c: Config, w1: World, w2: World, verdict: (nat, nat) -> bool)
    requires Valid(c) && Ideal(c)
    requires Reachable(c, w1) && Complete(w1) && !w1.cancelled && EndsAs(w1, verdict)
    requires Reachable(c, w2) && Complete(w2) && !w2.cancelled && EndsAs(w2, verdict)
    ensures forall r :: r in w1.sent <==> r in w2.sent
    ensures |w1.sent| == |w2.sent|
  {
    forall r ensures r in w1.sent <==> r in w2.sent {
      SentWhen(c, w1, verdict, r);
      SentWhen(c, w2, verdict, r);
    }
    hide Ideal, Known;
    CompleteMeansFinished(c, w1);
    CompleteMeansFinished(c, w2);
    ExactlyOnce(c, w1);
    ExactlyOnce(c, w2);
  }

  // ---------------------------------------------------------------------------
  // Running again

  /** The configuration of the next run: same playbook, nodes and variables, no force,
      started from the file the first run left. */
  ghost function Next(c: Config, w: World): Config
  {
    c.(force := false, file := w.disk)
  }

  lemma NextIsIdeal(c: Config, w: World)
    requires Valid(c) && Ideal(c)
    ensures Valid(Next(c, w)) && Ideal(Next(c, w))
    ensures forall n: nat, i: nat, key :: IsKey(Next(c, w), n, i, key) <==> IsKey(c, n, i, key)
  {
    StaysIdeal(c, Next(c, w));
  }

  /** The state file and the force flag play no part in the hypotheses. */
  lemma StaysIdeal(c: Config, d: Config)
    requires Valid(c) && Ideal(c) && d == c.(force := d.force, file := d.file)
    ensures Valid(d) && Ideal(d)
    ensures forall n: nat, i: nat, key :: IsKey(d, n, i, key) <==> IsKey(c, n, i, key)
  {
    forall n: nat, i: nat, x ensures IsPreimage(d, n, i, x) <==> IsPreimage(c, n, i, x) {}
    forall n: nat, i: nat, key ensures IsKey(d, n, i, key) <==> IsKey(c, n, i, key) {
      if IsKey(c, n, i, key) { SameKeys(c, d, n, i, key); }
      if IsKey(d, n, i, key) { SameKeys(d, c, n, i, key); }
    }
  }

  lemma SameKeys(c: Config, d: Config, n: nat, i: nat, key: string)
    requires Valid(c) && Valid(d) && d == c.(force := d.force, file := d.file) && IsKey(c, n, i, key)
    ensures IsKey(d, n, i, key)
  {
    var o :| Template.IsOrder(o, c.vars) && key == State.Key(c.nodes[n].name, Hash(c, n, i, o));
    assert key == State.Key(d.nodes[n].name, Hash(d, n, i, o));
  }

  /** What the file knows after a run whose last save was done: what it knew, and the pairs
      that succeeded. */
  lemma FileKnows(c: Config, w: World, n: nat, i: nat)
    requires Valid(c) && Ideal(c) && Reachable(c, w) && Complete(w) && !w.saveFailed
    requires n < |c.nodes| && i < |c.steps|
    ensures Known(c, State.Contents(w.disk), n, i) <==>
            Known(c, State.Contents(c.file), n, i) || Result(n, i, Ran(true)) in w.sent
  {
    var tr :| IsTrace(c, tr) && Last(tr) == w;
    CacheAlong(c, tr, |tr| - 1);
    FileEqualsMemory(c, w);
    CompleteMeansFinished(c, w);
    assert Provenance(c, w, w.mem) && Kept(c, w) && State.Contents(w.disk) == w.mem;
    assert State.Contents(c.file).Keys <= w.mem.Keys;
    hide Ideal, Provenance, AllFinished, Cache, IsTrace, Reachable, Complete, IsKey, State.Contents;
    if Result(n, i, Ran(true)) in w.sent {
      assert Succeeded(w, n, i);
    }
    if Known(c, w.mem, n, i) {
      KnownFrom(c, w, n, i);
    }
  }

  /** What memory knows once the goroutines are gone was known before or has succeeded. */
  lemma KnownFrom(c: Config, w: World, n: nat, i: nat)
    requires Valid(c) && Ideal(c) && Provenance(c, w, w.mem) && AllExited(w) && Known(c, w.mem, n, i)
    ensures Known(c, State.Contents(c.file), n, i) || Result(n, i, Ran(true)) in w.sent
  {
    hide Ideal, Provenance, IsKey, State.Contents;
    var key :| IsKey(c, n, i, key) && key in w.mem;
    if key !in State.Contents(c.file) {
      MarkedByItself(c, w, n, i, key);
    }
  }

  /** Re-run convergence. After any first run (forced or not, cancelled or not) whose
      collector ended with its last save done, a second uncancelled run executes exactly the
      applicable pairs that neither succeeded in the first nor were cached before it. */
  lemma RerunConverges(c: Config, w1: World, w2: World, n: nat, i: nat)
    requires Valid(c) && Ideal(c)
    requires Reachable(c, w1) && Complete(w1) && !w1.saveFailed
    requires Valid(Next(c, w1)) && Reachable(Next(c, w1), w2) && Complete(w2) && !w2.cancelled
    requires n < |c.nodes| && i < |c.steps|
    ensures Executed(w2, n, i) <==>
            && n in c.plan.applicable[i]
            && Result(n, i, Ran(true)) !in w1.sent
            && !Known(c, State.Contents(c.file), n, i)
  {
    var d := Next(c, w1);
    NextIsIdeal(c, w1);
    FileKnows(c, w1, n, i);
    CacheDecides(d, w2, n, i);
    KnownSame(c, d, State.Contents(w1.disk), n, i);
  }

  lemma KnownSame(c: Config, d: Config, m: Entries, n: nat, i: nat)
    requires Valid(c) && Valid(d) && d == c.(force := d.force, file := d.file)
    ensures Known(c, m, n, i) <==> Known(d, m, n, i)
  {
    if Known(c, m, n, i) {
      var key :| IsKey(c, n, i, key) && key in m;
      SameKeys(c, d, n, i, key);
    }
    if Known(d, m, n, i) {
      var key :| IsKey(d, n, i, key) && key in m;
      SameKeys(d, c, n, i, key);
    }
  }

  /** Nothing was executed so far, and neither memory nor the file has changed. */
  ghost predicate Idle(c: Config, w: World)
    requires Valid(c)
  {
    && (forall n: nat, i: nat :: !RunIt(w, n, i))
    && w.mem == State.Contents(c.file) && w.disk == c.file
    && (w.collector.Receive? || w.collector.Ended?)
  }

  ghost predicate AllCached(c: Config)
    requires Valid(c)
  {
    forall n: nat, i: nat :: i < |c.plan.needs| && n in c.plan.applicable[i] ==> Known(c, State.Contents(c.file), n, i)
  }

  lemma IdleStep(c: Config, w: World, a: Action)
    requires Valid(c) && Shape(c, w) && Enabled(c, w, a) && Idle(c, w)
    requires forall n: nat, i: nat :: !RunIt(Apply(c, w, a), n, i)
    ensures Idle(c, Apply(c, w, a))
  {
    if a.Worker? && a.move.Record? {
      assert RunIt(w, a.node, w.threads[a.node].step);
    }
    if a.Take? {
      var r := w.sent[w.taken];
      if r.outcome.Ran? { RanShows(w, r); }
    }
  }

  lemma RanShows(w: World, r: Result)
    requires r in w.sent && r.outcome.Ran?
    ensures RunIt(w, r.node, r.step)
  {
    assert r == Result(r.node, r.step, Ran(true)) || r == Result(r.node, r.step, Ran(false));
  }

  lemma {:induction false} IdleAlong(c: Config, tr: seq<World>, k: nat)
    requires Valid(c) && Ideal(c) && !c.force && AllCached(c) && IsTrace(c, tr) && k < |tr|
    ensures Idle(c, tr[k])
  {
    DecidedAlong(c, tr, k);
    InvAlong(c, tr, k);
    forall n: nat, i: nat ensures !RunIt(tr[k], n, i) {
      if RunIt(tr[k], n, i) { RunItApplies(c, tr[k], n, i); }
    }
    if k > 0 {
      IdleAlong(c, tr, k - 1);
      var a := ActionAt(c, tr, k - 1);
      hide Ideal, Shape, Decided, Inv, AllCached, Apply, IsTrace, RunIt;
      IdleStep(c, tr[k - 1], a);
    }
  }

  lemma RunItApplies(c: Config, w: World, n: nat, i: nat)
    requires Valid(c) && Shape(c, w) && Results(c, w) && RunIt(w, n, i)
    ensures i < |c.plan.needs| && n in c.plan.applicable[i]
  {
    if n < |w.threads| { assert ThreadOk(c, n, w.threads[n]); }
    if Result(n, i, Ran(true)) in w.sent { SentIsDue(c, w, Result(n, i, Ran(true))); }
    if Result(n, i, Ran(false)) in w.sent { SentIsDue(c, w, Result(n, i, Ran(false))); }
  }

  /** After a fully successful uncancelled run whose last save was done, no later run of the
      same playbook executes anything: in each of its worlds the cache and the state file
      are what the first run left. */
  lemma SecondRunIsIdle(c: Config, w1: World, tr: seq<World>, k: nat)
    requires Valid(c) && Ideal(c)
    requires Reachable(c, w1) && Complete(w1) && !w1.saveFailed && !w1.cancelled
    requires forall r :: r in w1.sent ==> r.outcome != Ran(false)
    requires Valid(Next(c, w1)) && IsTrace(Next(c, w1), tr) && k < |tr|
    ensures tr[k].mem == w1.mem && tr[k].disk == w1.disk
    ensures forall n: nat, i: nat :: !Executed(tr[k], n, i)
  {
    var d := Next(c, w1);
    NextIsIdeal(c, w1);
    forall n: nat, i: nat | i < |d.plan.needs| && n in d.plan.applicable[i]
      ensures Known(d, State.Contents(d.file), n, i)
    {
      CacheDecides(c, w1, n, i);
      FileKnows(c, w1, n, i);
      KnownSame(c, d, State.Contents(w1.disk), n, i);
    }
    IdleAlong(d, tr, k);
    FileEqualsMemory(c, w1);
    forall n: nat, i: nat ensures !Executed(tr[k], n, i) {
      assert !RunIt(tr[k], n, i);
    }
  }
}
