/** dryRunPlaybook (cmd/cexec/main.go) against the real run. The dry run hashes the
    command as written; the real run hashes it with its placeholders expanded. */
module DryRun {
  import opened Plan
  import opened Runner
  import opened RunnerSafety
  import opened RunnerLiveness
  import opened RunnerCache
  import opened Rerun
  import opened RunnerSaves
  import State
  import Template
  import Playbook
  import Inventory

  datatype Verdict = RoleMismatch | AlreadyDone | WouldRun

  function DryKey(digest: string -> string, node: Inventory.Node, step: Playbook.Step): string
  {
    State.Key(node.name, digest(State.Preimage(node.name, step.name, step.command)))
  }

  ghost function VerdictFor(node: Inventory.Node, step: Playbook.Step, digest: string -> string,
                               force: bool, file: State.File): Verdict
  {
    if !Applies(node, step) then RoleMismatch
    else if !force && DryKey(digest, node, step) in State.Contents(file) then AlreadyDone
    else WouldRun
  }

  /** `row` holds the verdict of every node for one step. */
  ghost predicate RowFor(row: seq<Verdict>, nodes: seq<Inventory.Node>, step: Playbook.Step,
                         digest: string -> string, force: bool, file: State.File)
  {
    |row| == |nodes| && forall n :: 0 <= n < |nodes| ==> row[n] == VerdictFor(nodes[n], step, digest, force, file)
  }

  /** The two nested loops; row i holds the verdicts of step i in node order. */
  method DryRunPlaybook(nodes: seq<Inventory.Node>, steps: seq<Playbook.Step>, digest: string -> string,
                        force: bool, file: State.File)
    returns (rows: seq<seq<Verdict>>)
    ensures |rows| == |steps|
    ensures forall i :: 0 <= i < |steps| ==> RowFor(rows[i], nodes, steps[i], digest, force, file)
  {
    var store := new State.Store(file);
    rows := [];
    for i := 0 to |steps|
      invariant store.Valid() && store.entries == State.Contents(file)
      invariant |rows| == i
      invariant forall j :: 0 <= j < i ==> RowFor(rows[j], nodes, steps[j], digest, force, file)
    {
      var row: seq<Verdict> := [];
      for n := 0 to |nodes|
        invariant store.Valid() && store.entries == State.Contents(file)
        invariant |row| == n <= |nodes|
        invariant forall m :: 0 <= m < n ==> row[m] == VerdictFor(nodes[m], steps[i], digest, force, file)
      {
        var matches := NodeMatchesRoles(nodes[n], steps[i].roles);
        if |steps[i].roles| > 0 && !matches {
          row := row + [RoleMismatch];
        } else {
          var hash := digest(State.Preimage(nodes[n].name, steps[i].name, steps[i].command));
          var done := store.Done(nodes[n].name, hash);
          row := row + [if !force && done then AlreadyDone else WouldRun];
        }
      }
      assert RowFor(row, nodes, steps[i], digest, force, file);
      rows := rows + [row];
    }
  }

  /** A pair is reported as a role mismatch exactly when the step names roles and none of them
      is a group of the node. */
  lemma MismatchByIndex(node: Inventory.Node, step: Playbook.Step, digest: string -> string,
                        force: bool, file: State.File)
    ensures VerdictFor(node, step, digest, force, file) == RoleMismatch <==>
            && step.roles != []
            && forall r, g :: 0 <= r < |step.roles| && 0 <= g < |node.groups| ==> node.groups[g] != step.roles[r]
  {
    MatchesByIndex(node, step.roles);
  }

  /** What the dry run said of the pair is what the run did. */
  ghost predicate Agrees(v: Verdict, w: World, n: nat, i: nat)
  {
    match v
    case RoleMismatch => !Reported(w, n, i)
    case AlreadyDone => Result(n, i, Skipped) in w.sent && !Executed(w, n, i)
    case WouldRun => Executed(w, n, i) && Result(n, i, Skipped) !in w.sent
  }

  ghost predicate OfSource(c: Config)
  {
    c.plan == PlanOf(c.nodes, c.steps)
  }

  /** The verdict is right exactly when the pair is role-filtered, the run is forced, or
      the key of the command as written is cached just as the key of the expanded one is. */
  lemma VerdictIsRightWhen(c: Config, w: World, n: nat, i: nat)
    requires Valid(c) && OfSource(c) && Ideal(c) && Reachable(c, w) && Complete(w) && !w.cancelled
    requires n < |c.nodes| && i < |c.steps|
    ensures Agrees(VerdictFor(c.nodes[n], c.steps[i], c.digest, c.force, c.file), w, n, i) <==>
            || !Applies(c.nodes[n], c.steps[i])
            || c.force
            || (DryKey(c.digest, c.nodes[n], c.steps[i]) in State.Contents(c.file) <==>
                Known(c, State.Contents(c.file), n, i))
  {
    CacheDecides(c, w, n, i);
    assert n in c.plan.applicable[i] <==> Applies(c.nodes[n], c.steps[i]);
    hide Ideal, Known, Applies, DryKey, Reachable, Executed, Reported;
    if Applies(c.nodes[n], c.steps[i]) {
      assert Executed(w, n, i) <==> !(Result(n, i, Skipped) in w.sent);
    }
  }

  /** For a step whose command expansion leaves unchanged the dry run is always right. */
  lemma PlainStepsAgree(c: Config, w: World, n: nat, i: nat, order: seq<string>)
    requires Valid(c) && OfSource(c) && Ideal(c) && Reachable(c, w) && Complete(w) && !w.cancelled
    requires n < |c.nodes| && i < |c.steps|
    requires Template.IsOrder(order, c.vars)
             && Template.ExpandIn(c.steps[i].command, c.vars, order) == c.steps[i].command
    ensures Agrees(VerdictFor(c.nodes[n], c.steps[i], c.digest, c.force, c.file), w, n, i)
  {
    var key := DryKey(c.digest, c.nodes[n], c.steps[i]);
    assert key == State.Key(c.nodes[n].name, Hash(c, n, i, order));
    assert IsKey(c, n, i, key);
    if Known(c, State.Contents(c.file), n, i) {
      var k :| IsKey(c, n, i, k) && k in State.Contents(c.file);
      KeyIsUnique(c, n, i, k, key);
    }
    hide Ideal, Known, Applies, DryKey, Reachable, IsKey;
    VerdictIsRightWhen(c, w, n, i);
  }

  /** Where expansion changes the command, the dry run announces work the run skips: the
      pair succeeded before, yet the key of the unexpanded command is not in the file. */
  lemma DryRunOverstates(c: Config, w1: World, w2: World, n: nat, i: nat)
    requires Valid(c) && OfSource(c) && Ideal(c)
    requires Reachable(c, w1) && Complete(w1) && !w1.saveFailed
    requires Valid(Next(c, w1)) && Reachable(Next(c, w1), w2) && Complete(w2) && !w2.cancelled
    requires n < |c.nodes| && i < |c.steps| && Result(n, i, Ran(true)) in w1.sent
    requires DryKey(c.digest, c.nodes[n], c.steps[i]) !in State.Contents(w1.disk)
    ensures VerdictFor(c.nodes[n], c.steps[i], c.digest, false, w1.disk) == WouldRun
    ensures Result(n, i, Skipped) in w2.sent && !Executed(w2, n, i)
  {
    var d := Next(c, w1);
    NextIsIdeal(c, w1);
    FileKnows(c, w1, n, i);
    KnownSame(c, d, State.Contents(w1.disk), n, i);
    InvReachable(c, w1);
    SentIsDue(c, w1, Result(n, i, Ran(true)));
    assert Applies(c.nodes[n], c.steps[i]);
    hide Ideal, Known, Applies, DryKey, Reachable, IsKey, Inv;
    CacheDecides(d, w2, n, i);
  }

  // ---------------------------------------------------------------------------
  // Where expansion changes the command

  /** The state file with the one entry of a node, a step and a command text. */
  function OneEntry(digest: string -> string, node: Inventory.Node, step: Playbook.Step, command: string): State.File
  {
    State.Saved([State.Entry(node.name, step.name, digest(State.Preimage(node.name, step.name, command)), 0)])
  }

  lemma OneEntryHolds(digest: string -> string, node: Inventory.Node, step: Playbook.Step, command: string)
    ensures State.Contents(OneEntry(digest, node, step, command)).Keys ==
            {State.Key(node.name, digest(State.Preimage(node.name, step.name, command)))}
  {
    var es := OneEntry(digest, node, step, command).entries;
    assert es[..0] == [];
    assert State.Collect(es) == map[State.KeyOf(es[0]) := es[0]];
  }

  /** A completed uncancelled run from the state file `f`. */
  ghost predicate RunFrom(c: Config, f: State.File, w: World)
    requires Valid(c)
  {
    var d := c.(file := f);
    Reachable(d, w) && Complete(w) && !w.cancelled
  }

  ghost function Expansion(c: Config, i: nat, order: seq<string>): string
    requires i < |c.steps| && Template.IsOrder(order, c.vars)
  {
    Template.ExpandIn(c.steps[i].command, c.vars, order)
  }

  /** A pair an unforced run of a playbook that can finish gets to, with an expansion whose
      digest tells it from the command as written. */
  ghost predicate Telling(c: Config, n: nat, i: nat, order: seq<string>)
    requires Valid(c)
  {
    && OfSource(c) && Ideal(c) && Releasable(c.plan) && !c.force
    && n < |c.nodes| && i < |c.steps| && Applies(c.nodes[n], c.steps[i]) && Template.IsOrder(order, c.vars)
    && var node, step, text := c.nodes[n].name, c.steps[i], Expansion(c, i, order);
       (c.digest(State.Preimage(node, step.name, step.command)) == c.digest(State.Preimage(node, step.name, text)) ==>
          step.command == text)
  }

  lemma RunFromExists(c: Config, f: State.File) returns (w: World)
    requires Valid(c) && Releasable(c.plan)
    ensures RunFrom(c, f, w)
  {
    w := SavedRunExists(c.(file := f));
  }

  /** From a file with one entry a run skips the pair exactly when it is the expanded one. */
  lemma OneEntryRun(c: Config, n: nat, i: nat, order: seq<string>, command: string, w: World)
    requires Valid(c) && Telling(c, n, i, order)
    requires RunFrom(c, OneEntry(c.digest, c.nodes[n], c.steps[i], command), w)
    ensures var key, node := State.Key(c.nodes[n].name, Hash(c, n, i, order)), c.nodes[n].name;
            var hit := key == State.Key(node, c.digest(State.Preimage(node, c.steps[i].name, command)));
            (Result(n, i, Skipped) in w.sent <==> hit) && (Executed(w, n, i) <==> !hit)
  {
    var f := OneEntry(c.digest, c.nodes[n], c.steps[i], command);
    var d := c.(file := f);
    var key := State.Key(c.nodes[n].name, Hash(c, n, i, order));
    StaysIdeal(c, d);
    OneEntryHolds(c.digest, c.nodes[n], c.steps[i], command);
    assert IsKey(c, n, i, key);
    assert Known(d, State.Contents(f), n, i) <==> key in State.Contents(f) by {
      if Known(d, State.Contents(f), n, i) {
        var k :| IsKey(d, n, i, k) && k in State.Contents(f);
        KeyIsUnique(c, n, i, k, key);
      }
    }
    hide Ideal, Known, IsKey, OneEntry;
    CacheDecides(d, w, n, i);
  }

  /** Two files on which the dry run is wrong when expansion changes the command. It
      announces work that every run from the first file skips, and it reports as done what
      every run from the second executes: that file stems from a playbook whose command was
      not expanded. Both kinds of run exist. */
  lemma DryRunIsWrong(c: Config, n: nat, i: nat, order: seq<string>)
    requires Valid(c) && Telling(c, n, i, order) && Expansion(c, i, order) != c.steps[i].command
    ensures var f := OneEntry(c.digest, c.nodes[n], c.steps[i], Expansion(c, i, order));
            && VerdictFor(c.nodes[n], c.steps[i], c.digest, false, f) == WouldRun
            && (exists w :: RunFrom(c, f, w))
            && (forall w :: RunFrom(c, f, w) ==> Result(n, i, Skipped) in w.sent && !Executed(w, n, i))
    ensures var f := OneEntry(c.digest, c.nodes[n], c.steps[i], c.steps[i].command);
            && VerdictFor(c.nodes[n], c.steps[i], c.digest, false, f) == AlreadyDone
            && (exists w :: RunFrom(c, f, w))
            && (forall w :: RunFrom(c, f, w) ==> Executed(w, n, i) && Result(n, i, Skipped) !in w.sent)
  {
    var node, step, text := c.nodes[n], c.steps[i], Expansion(c, i, order);
    var over, under := OneEntry(c.digest, node, step, text), OneEntry(c.digest, node, step, step.command);
    OneEntryHolds(c.digest, node, step, text);
    OneEntryHolds(c.digest, node, step, step.command);
    var h1, h2 := c.digest(State.Preimage(node.name, step.name, text)),
                 c.digest(State.Preimage(node.name, step.name, step.command));
    assert h1 == Hash(c, n, i, order);
    if State.Key(node.name, h1) == State.Key(node.name, h2) { State.KeyInjective(node.name, h1, node.name, h2); }
    var w1 := RunFromExists(c, over);
    var w2 := RunFromExists(c, under);
    assert VerdictFor(node, step, c.digest, false, over) == WouldRun;
    assert VerdictFor(node, step, c.digest, false, under) == AlreadyDone;
    hide VerdictFor, RunFrom, Telling, OneEntry, Executed;
    forall w | RunFrom(c, over, w) ensures Result(n, i, Skipped) in w.sent && !Executed(w, n, i) {
      OneEntryRun(c, n, i, order, text, w);
    }
    forall w | RunFrom(c, under, w) ensures Executed(w, n, i) && Result(n, i, Skipped) !in w.sent {
      OneEntryRun(c, n, i, order, step.command, w);
    }
  }

  /** The dry run is right about a pair from every state file exactly when expansion leaves
      its command unchanged. */
  lemma DryRunIsRightWhen(c: Config, n: nat, i: nat, order: seq<string>)
    requires Valid(c) && Telling(c, n, i, order)
    ensures (forall f, w :: RunFrom(c, f, w) ==>
              Agrees(VerdictFor(c.nodes[n], c.steps[i], c.digest, false, f), w, n, i)) <==>
            Expansion(c, i, order) == c.steps[i].command
  {
    if Expansion(c, i, order) == c.steps[i].command {
      forall f, w | RunFrom(c, f, w) ensures Agrees(VerdictFor(c.nodes[n], c.steps[i], c.digest, false, f), w, n, i) {
        StaysIdeal(c, c.(file := f));
        PlainStepsAgree(c.(file := f), w, n, i, order);
      }
    } else {
      DryRunIsWrong(c, n, i, order);
      var f := OneEntry(c.digest, c.nodes[n], c.steps[i], Expansion(c, i, order));
      var w :| RunFrom(c, f, w);
      assert !Agrees(VerdictFor(c.nodes[n], c.steps[i], c.digest, false, f), w, n, i);
    }
  }

  function SmallStep(): Playbook.Step
  {
    Playbook.Step("s", "{{a}}", false, [], [])
  }

  /** One node, one step whose command is `{{a}}`, and `a` = `x`. */
  ghost function Small(node: Inventory.Node, digest: string -> string): (c: Config)
    ensures Valid(c)
  {
    ConfigFor([node], [SmallStep()], map["a" := "x"], digest, false, State.Missing)
  }

  /** The smallest playbook the dry run is wrong about, with any digest that tells the two
      texts apart. */
  lemma SmallestWrongDryRun(node: Inventory.Node, digest: string -> string, f: State.File, g: State.File)
    requires forall x, y :: |digest(x)| == |digest(y)|
    requires digest(State.Preimage(node.name, "s", "{{a}}")) != digest(State.Preimage(node.name, "s", "x"))
    requires f == OneEntry(digest, node, SmallStep(), "x") && g == OneEntry(digest, node, SmallStep(), "{{a}}")
    ensures VerdictFor(node, SmallStep(), digest, false, f) == WouldRun
    ensures (exists w :: RunFrom(Small(node, digest), f, w))
            && forall w :: RunFrom(Small(node, digest), f, w) ==> !Executed(w, 0, 0)
    ensures VerdictFor(node, SmallStep(), digest, false, g) == AlreadyDone
    ensures (exists w :: RunFrom(Small(node, digest), g, w))
            && forall w :: RunFrom(Small(node, digest), g, w) ==> Executed(w, 0, 0)
  {
    var c, order := Small(node, digest), ["a"];
    SmallIsTelling(node, digest);
    assert c.nodes[0] == node && c.steps[0] == SmallStep() && c.digest == digest;
    hide Telling, VerdictFor, RunFrom, Executed, OneEntry, Small;
    DryRunIsWrong(c, 0, 0, order);
  }

  lemma SmallIsTelling(node: Inventory.Node, digest: string -> string)
    requires forall x, y :: |digest(x)| == |digest(y)|
    requires digest(State.Preimage(node.name, "s", "{{a}}")) != digest(State.Preimage(node.name, "s", "x"))
    ensures Telling(Small(node, digest), 0, 0, ["a"]) && Expansion(Small(node, digest), 0, ["a"]) == "x"
  {
    var c := Small(node, digest);
    OneVariable();
    assert IdealHash(c) by {
      forall m, j, t | IsPreimage(c, m, j, t) ensures t == State.Preimage(node.name, "s", "x") {
        assert Template.OrderIndependent("{{a}}", c.vars);
      }
    }
  }

  lemma OneVariable()
    ensures var vars := map["a" := "x"];
            && Template.IsOrder(["a"], vars) && Template.ExpandIn("{{a}}", vars, ["a"]) == "x"
            && Template.OrderIndependent("{{a}}", vars)
  {
    var vars, t := map["a" := "x"], [Template.Var("a")];
    assert Template.Text(t) == "{{a}}" by { assert t[1..] == []; }
    Template.PlainIsOrderIndependent(t, vars);
    Template.ReplaceIsFill(t, "a", [Template.Lit("x")]);
    assert Template.Placeholder("a") == "{{a}}";
    assert Template.Fill(t, "a", [Template.Lit("x")]) == [Template.Lit("x")];
    assert Template.Text([Template.Lit("x")]) == "x" by { assert [Template.Lit("x")][1..] == []; }
    assert ["a"][1..] == [];
    assert Template.ExpandIn("{{a}}", vars, ["a"]) == Template.ExpandIn("x", vars, []);
  }
}
