/** The start of main (cmd/cexec/main.go): hosts file and inventory are merged and the
    inventory file is completed with the nodes it lacked. */
module InventorySync {
  import opened Inventory
  import Hosts

  /** The inventory file as Load meets it: unreadable, or a list of nodes. */
  datatype File = Unreadable | Listed(nodes: seq<Node>)

  /** What one start leaves: the nodes to run on, the inventory file, the nodes to warn about. */
  datatype Start = NoHosts | Start(merged: seq<Node>, file: File, missing: seq<Node>)

  /** What becomes of the write: done, or not completed. The file is truncated before it is
      written, so a write that fails or is cut off can leave anything in its place. */
  datatype Write = Done | Torn(left: File)

  /** One start with a hosts file: load both sources, merge, append what was added. A file
      that lacks nothing is not rewritten. */
  method SyncInventory(lines: seq<string>, hostsUser: string, file: File, write: Write) returns (r: Start)
    ensures r == if HostNodes(lines, hostsUser) == [] then NoHosts else Synced(HostNodes(lines, hostsUser), file, write)
  {
    hide Hosts.FirstOfEach, Hosts.FileEntries, Hosts.NodesFor, OverlaidAll, Lacking, Defaulted;
    var loaded := Hosts.LoadInventory(lines, hostsUser, 22);
    if loaded.NoClusterNodes? {
      return NoHosts;
    }
    if file.Unreadable? {
      return Start(loaded.nodes, file, []);
    }
    var overlay := ApplyDefaults(file.nodes);
    assert overlay == DefaultedAll(file.nodes);
    var merged, added, missing := MergeGroups(loaded.nodes, overlay);
    if |added| == 0 {
      return Start(merged, file, missing);
    }
    var nodes := overlay;
    for i := 0 to |added|
      invariant nodes == overlay + added[..i]
    {
      nodes := nodes + [added[i]];
    }
    assert added[..|added|] == added;
    r := Start(merged, if write.Done? then Listed(nodes) else write.left, missing);
  }

  function HostNodes(lines: seq<string>, hostsUser: string): seq<Node>
  {
    Hosts.NodesFor(Hosts.FirstOfEach(Hosts.FileEntries(lines)), if hostsUser == "" then "hpc" else hostsUser, 22)
  }

  function DefaultedAll(nodes: seq<Node>): (r: seq<Node>)
    ensures |r| == |nodes|
  {
    seq(|nodes|, i requires 0 <= i < |nodes| => Defaulted(nodes[i]))
  }

  function Synced(base: seq<Node>, file: File, write: Write): Start
  {
    match file
    case Unreadable => Start(base, file, [])
    case Listed(raw) =>
      var overlay := DefaultedAll(raw);
      var added := Lacking(base, overlay);
      Start(OverlaidAll(base, overlay) + Lacking(overlay, base),
            if added == [] then file else if write.Done? then Listed(overlay + added) else write.left,
            Lacking(overlay, base))
  }

  /** What is written, entry by entry: the file's own nodes with the defaults filled in, then
      the hosts nodes it did not name, with the fields the hosts file gives them, in its order. */
  lemma WrittenFile(base: seq<Node>, raw: seq<Node>, at: seq<nat>)
    requires Writes(base, Listed(raw))
    requires forall j, k :: 0 <= j < k < |at| ==> at[j] < at[k]
    requires forall i: nat :: i in at <==> i < |base| && forall k :: 0 <= k < |raw| ==> raw[k].name != base[i].name
    ensures var file := Synced(base, Listed(raw), Done).file;
            && file.Listed? && |file.nodes| == |raw| + |at|
            && (forall k :: 0 <= k < |raw| ==>
                  && file.nodes[k].name == raw[k].name && file.nodes[k].host == raw[k].host
                  && file.nodes[k].groups == raw[k].groups
                  && file.nodes[k].port == (if raw[k].port == 0 then 22 else raw[k].port)
                  && file.nodes[k].user == (if raw[k].user == "" then "root" else raw[k].user))
            && forall k :: 0 <= k < |at| ==> at[k] < |base| && file.nodes[|raw| + k] == base[at[k]]
  {
    var overlay := DefaultedAll(raw);
    var places := LackingInOrder(base, overlay);
    forall i: nat | i < |base|
      ensures HasName(overlay, base[i].name) <==> exists k :: 0 <= k < |raw| && raw[k].name == base[i].name
    {
      if k :| 0 <= k < |raw| && raw[k].name == base[i].name { assert overlay[k].name == base[i].name; }
    }
    assert forall i: nat :: i in at <==> i in places;
    AscendingUnique(at, places);
    hide Lacking, HasName;
  }

  /** An ascending list is determined by what it holds. */
  lemma {:induction false} AscendingUnique(a: seq<nat>, b: seq<nat>)
    requires forall i: nat :: i in a <==> i in b
    requires forall j, k :: 0 <= j < k < |a| ==> a[j] < a[k]
    requires forall j, k :: 0 <= j < k < |b| ==> b[j] < b[k]
    ensures a == b
  {
    assert (a != [] ==> a[0] in a) && (b != [] ==> b[0] in b);
    if a != [] && b != [] {
      var c, d := a[..|a| - 1], b[..|b| - 1];
      InitsAgree(a, b, c, d);
      AscendingUnique(c, d);
      Rejoined(a);
      Rejoined(b);
    }
  }

  lemma Rejoined(a: seq<nat>)
    requires a != []
    ensures a == a[..|a| - 1] + [a[|a| - 1]]
  {
  }

  lemma InitsAgree(a: seq<nat>, b: seq<nat>, c: seq<nat>, d: seq<nat>)
    requires a != [] && b != [] && forall i: nat :: i in a <==> i in b
    requires c == a[..|a| - 1] && d == b[..|b| - 1]
    requires forall j, k :: 0 <= j < k < |a| ==> a[j] < a[k]
    requires forall j, k :: 0 <= j < k < |b| ==> b[j] < b[k]
    ensures a[|a| - 1] == b[|b| - 1]
    ensures forall i: nat :: i in c <==> i in d
  {
    assert a[|a| - 1] in a && b[|b| - 1] in b;
    LastIsLargest(a, b[|b| - 1]);
    LastIsLargest(b, a[|a| - 1]);
    forall i: nat ensures i in c <==> i in d {
      InInit(a, i);
      InInit(b, i);
    }
  }

  lemma LastIsLargest(a: seq<nat>, y: nat)
    requires a != [] && forall j, k :: 0 <= j < k < |a| ==> a[j] < a[k]
    ensures y in a ==> y <= a[|a| - 1]
  {
  }

  lemma InInit(a: seq<nat>, i: nat)
    requires a != [] && forall j, k :: 0 <= j < k < |a| ==> a[j] < a[k]
    ensures i in a[..|a| - 1] <==> i in a && i != a[|a| - 1]
  {
    assert a == a[..|a| - 1] + [a[|a| - 1]];
  }

  /** The start writes the inventory file. */
  predicate Writes(base: seq<Node>, file: File)
  {
    file.Listed? && Lacking(base, DefaultedAll(file.nodes)) != []
  }

  /** Starting again on what a first start left gives the same node list, file and warnings,
      unless the first had something to write and did not complete it. */
  lemma SecondStartChangesNothing(lines: seq<string>, hostsUser: string, file: File, w1: Write, w2: Write)
    requires Writes(HostNodes(lines, hostsUser), file) ==> w1.Done?
    ensures var base := HostNodes(lines, hostsUser);
            var first := Synced(base, file, w1);
            Synced(base, first.file, w2) == first && !Writes(base, first.file)
  {
    var user := if hostsUser == "" then "hpc" else hostsUser;
    var base := HostNodes(lines, hostsUser);
    Hosts.LoadedNodes(lines, user, 22);
    assert WellMade(base);
    hide HostNodes, WellMade, Lacking, OverlaidAll;
    if file.Listed? {
      CompletedFileIsDefaulted(base, file.nodes);
      SyncIsFixpoint(base, DefaultedAll(file.nodes));
    }
  }

  // ---------------------------------------------------------------------------
  // After a write that was not completed

  /** The nodes a start reads from the file, if any. */
  function Known(file: File): seq<Node>
  {
    if file.Listed? then DefaultedAll(file.nodes) else []
  }

  /** The groups, port and user the inventory has for a hosts node, or else its own. */
  function Metadata(n: Node, overlay: seq<Node>): (seq<string>, int, string)
  {
    match LastNamed(overlay, n.name)
    case None => (n.groups, n.port, n.user)
    case Some(ov) => (ov.groups, ov.port, ov.user)
  }

  /** Two inventory files say the same about the hosts nodes, and list the same other nodes. */
  predicate SameInventory(base: seq<Node>, a: seq<Node>, b: seq<Node>)
  {
    && (forall i :: 0 <= i < |base| ==> Metadata(base[i], a) == Metadata(base[i], b))
    && Lacking(a, base) == Lacking(b, base)
  }

  lemma KnownHasDefaults(file: File, n: Node)
    requires n in Known(file)
    ensures n.port != 0 && n.user != ""
  {
    var i :| 0 <= i < |Known(file)| && Known(file)[i] == n;
    assert n == Defaulted(file.nodes[i]);
  }

  lemma OverlaidByMetadata(n: Node, file: File)
    ensures Overlaid(n, Known(file)) == var m := Metadata(n, Known(file)); n.(groups := m.0, port := m.1, user := m.2)
  {
    var r := LastNamed(Known(file), n.name);
    if r.Some? { KnownHasDefaults(file, r.value); }
  }

  /** What a start runs on and warns about depends on the file through its nodes only. */
  lemma SyncedByKnown(base: seq<Node>, file: File, w: Write)
    ensures Synced(base, file, w).merged == OverlaidAll(base, Known(file)) + Lacking(Known(file), base)
    ensures Synced(base, file, w).missing == Lacking(Known(file), base)
  {
    assert OverlaidAll(base, []) == base by {
      forall i | 0 <= i < |base| ensures OverlaidAll(base, [])[i] == base[i] {}
    }
  }

  /** Two files lead to the same nodes and warnings exactly when they are the same inventory
      to this hosts file. */
  lemma StartsAgreeWhen(base: seq<Node>, a: File, b: File, w1: Write, w2: Write)
    ensures (Synced(base, a, w1).merged == Synced(base, b, w2).merged
             && Synced(base, a, w1).missing == Synced(base, b, w2).missing)
            <==> SameInventory(base, Known(a), Known(b))
  {
    SyncedByKnown(base, a, w1);
    SyncedByKnown(base, b, w2);
    var oa, ob := OverlaidAll(base, Known(a)), OverlaidAll(base, Known(b));
    forall i | 0 <= i < |base| ensures oa[i] == ob[i] <==> Metadata(base[i], Known(a)) == Metadata(base[i], Known(b)) {
      OverlaidByMetadata(base[i], a);
      OverlaidByMetadata(base[i], b);
    }
    hide Known, Metadata, Synced, Lacking, OverlaidAll;
    assert (oa + Lacking(Known(a), base))[..|base|] == oa;
    assert (ob + Lacking(Known(b), base))[..|base|] == ob;
  }

  /** After a torn write the second start agrees with the first exactly when what is left
      is the same inventory as before. */
  lemma TornWriteAgreesWhen(base: seq<Node>, file: File, left: File, w2: Write)
    requires Writes(base, file)
    ensures var first := Synced(base, file, Torn(left));
            var second := Synced(base, first.file, w2);
            (second.merged == first.merged && second.missing == first.missing) <==>
              SameInventory(base, Known(left), Known(file))
  {
    StartsAgreeWhen(base, left, file, w2, Torn(left));
  }

  /** Known before the first start: the second agrees with it, however the write goes, exactly
      when there is nothing to write. */
  lemma SecondStartAgreesWhen(base: seq<Node>, file: File)
    ensures (forall w1, w2 :: Agree(base, file, w1, w2)) <==> !Writes(base, file)
  {
    if Writes(base, file) {
      var n := Lacking(base, Known(file))[0];
      var left := Listed([n.(port := if n.port == 22 then 2222 else 22)]);
      ForeignPortDisagrees(base, file, n, left);
      assert !Agree(base, file, Torn(left), Done);
    } else {
      forall w1, w2 ensures Agree(base, file, w1, w2) {}
    }
  }

  /** The second start has the node list and the warnings of the first. */
  predicate Agree(base: seq<Node>, file: File, w1: Write, w2: Write)
  {
    var first := Synced(base, file, w1);
    var second := Synced(base, first.file, w2);
    second.merged == first.merged && second.missing == first.missing
  }

  /** What a torn write leaves can change a node the inventory did not know. */
  lemma ForeignPortDisagrees(base: seq<Node>, file: File, n: Node, left: File)
    requires Writes(base, file) && n == Lacking(base, Known(file))[0]
    requires left.Listed? && |left.nodes| == 1 && left.nodes[0].name == n.name && left.nodes[0].port !in {0, n.port}
    ensures !Agree(base, file, Torn(left), Done)
  {
    LackingIs(base, Known(file));
    assert n in Lacking(base, Known(file));
    var i :| 0 <= i < |base| && base[i] == n;
    LastNamedAt(Known(left), n.name, 0);
    assert Metadata(base[i], Known(file)) == (n.groups, n.port, n.user);
    assert Metadata(base[i], Known(left)).1 == left.nodes[0].port;
    TornWriteAgreesWhen(base, file, left, Done);
    assert !SameInventory(base, Known(left), Known(file));
  }

  /** After a truncation the second start agrees exactly when the inventory knew no other node
      and nothing of its own about the hosts nodes. */
  lemma TruncationAgreesWhen(base: seq<Node>, file: File, w2: Write)
    requires Writes(base, file)
    ensures Agree(base, file, Torn(Listed([])), w2) <==>
            && Lacking(Known(file), base) == []
            && forall i :: 0 <= i < |base| ==>
                 Metadata(base[i], Known(file)) == (base[i].groups, base[i].port, base[i].user)
  {
    TornWriteAgreesWhen(base, file, Listed([]), w2);
    assert Known(Listed([])) == [];
  }

  /** It need not be: with a new hosts node to add, an inventory file truncated by the write
      loses every node only it knew, for all later starts. */
  lemma TruncationLosesNodes(base: seq<Node>, file: File, w2: Write)
    requires Writes(base, file) && Lacking(Known(file), base) != []
    ensures var first := Synced(base, file, Torn(Listed([])));
            var second := Synced(base, first.file, w2);
            second.merged == base && second.missing == [] && |second.merged| < |first.merged|
  {
    SyncedByKnown(base, Listed([]), w2);
    SyncedByKnown(base, file, Torn(Listed([])));
    forall i | 0 <= i < |base| ensures OverlaidAll(base, [])[i] == base[i] {}
    assert Known(Listed([])) == [];
  }

  /** One hosts node and one node only the inventory knows: two nodes, then one. */
  lemma SmallestTornWrite(n: Node, o: Node, w2: Write)
    requires n.name != o.name
    ensures Writes([n], Listed([o]))
    ensures var first := Synced([n], Listed([o]), Torn(Listed([])));
            first.merged == [n, Defaulted(o)] && Synced([n], first.file, w2).merged == [n]
  {
    var file := Listed([o]);
    assert Known(file) == [Defaulted(o)];
    LackingOne(n, Defaulted(o));
    LackingOne(Defaulted(o), n);
    NotOverlaid(n, Defaulted(o));
    hide Lacking, OverlaidAll, Defaulted;
    SyncedByKnown([n], file, Torn(Listed([])));
    TruncationLosesNodes([n], file, w2);
  }

  lemma LackingOne(x: Node, y: Node)
    requires x.name != y.name
    ensures Lacking([x], [y]) == [x]
  {
    assert [x][..0] == [];
    assert [y][0] == y && !HasName([y], x.name);
  }

  lemma NotOverlaid(n: Node, o: Node)
    requires n.name != o.name
    ensures OverlaidAll([n], [o]) == [n]
  {
    assert !HasName([o], n.name);
    assert OverlaidAll([n], [o])[0] == n;
  }

  /** Loading the completed file adds no default: what was appended has port and user. */
  lemma CompletedFileIsDefaulted(base: seq<Node>, raw: seq<Node>)
    requires WellMade(base)
    ensures var overlay := DefaultedAll(raw);
            DefaultedAll(overlay + Lacking(base, overlay)) == overlay + Lacking(base, overlay)
  {
    var overlay := DefaultedAll(raw);
    var added := Lacking(base, overlay);
    LackingIs(base, overlay);
    hide Lacking, HasName;
    forall i | 0 <= i < |added| ensures Defaulted(added[i]) == added[i] {
      assert added[i] in added;
      var k :| 0 <= k < |base| && base[k] == added[i];
    }
    forall i | 0 <= i < |overlay| ensures Defaulted(overlay[i]) == overlay[i] {
      assert overlay[i] == Defaulted(raw[i]);
    }
    var file := overlay + added;
    forall i | 0 <= i < |file| ensures Defaulted(file[i]) == file[i] {
      assert file[i] == if i < |overlay| then overlay[i] else added[i - |overlay|];
    }
  }
}
