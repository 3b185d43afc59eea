/** internal/hosts/hosts.go over the lines of a hosts file. */
module Hosts {
  import opened Text
  import opened Inventory

  /** clusterHostRe: "master", or "node" and at least one digit. */
  predicate IsClusterHost(name: string)
  {
    name == "master" || (|name| > 4 && name[..4] == "node" && All(name[4..], IsDigit))
  }

  /** One address with one of the names its line gives it. */
  datatype Entry = Entry(ip: string, name: string)

  /** The fields of a line that is not blank, not a comment, and has at least two. */
  function LineFields(line: string): (fs: seq<string>)
    ensures fs == [] || |fs| >= 2
  {
    var t := Trim(line);
    if t == "" || t[0] == '#' || |Fields(t)| < 2 then [] else Fields(t)
  }

  /** Which lines have fields, and which: the words of the line, if there are at least two and
      the first does not start with the comment sign. */
  lemma LineFieldsExact(line: string, fs: seq<string>)
    requires IsFields(line, fs)
    ensures LineFields(line) == if |fs| < 2 || (fs[0] != "" && fs[0][0] == '#') then [] else fs
  {
    hide IsFields, Trim, Fields;
    if fs == [] {
      TrimBlank(line) by { NoWordsMeansBlank(line); }
    } else {
      var a, r := TakeWord(line, fs);
      WordsAreFields(line, fs);
      TrimmedLine(line, a, fs[0], r);
    }
  }

  lemma NoWordsMeansBlank(line: string)
    requires IsFields(line, [])
    ensures All(line, IsSpace)
  {
  }

  lemma TrimmedLine(line: string, a: string, w: string, r: string)
    requires line == a + w + r && StartsWord(a, w, r)
    ensures Trim(line) != "" && Trim(line)[0] == w[0] && Fields(Trim(line)) == Fields(line)
  {
    hide Trim, Fields;
    var x := w + r;
    Associative(a, w, r);
    var y, b := TrimKeepsFirst(a, x);
    Associative(a, y, b);
    FieldsOfTrimmed(a, y, b);
  }

  /** The cluster names among `names`, lower-cased, each with the line's address. */
  function ClusterEntries(ip: string, names: seq<string>): seq<Entry>
  {
    if names == [] then []
    else
      var n := Lower(names[|names| - 1]);
      ClusterEntries(ip, names[..|names| - 1]) + if IsClusterHost(n) then [Entry(ip, n)] else []
  }

  function LineEntries(line: string): seq<Entry>
  {
    var fs := LineFields(line);
    if fs == [] then [] else ClusterEntries(fs[0], fs[1..])
  }

  function FileEntries(lines: seq<string>): seq<Entry>
  {
    if lines == [] then [] else FileEntries(lines[..|lines| - 1]) + LineEntries(lines[|lines| - 1])
  }

  function NodeFor(e: Entry, user: string, port: int): Node
  {
    Node(e.name, e.ip, user, port, [if e.name == "master" then "control" else "compute"])
  }

  /** The first entry of each name, in file order. */
  function FirstOfEach(es: seq<Entry>): seq<Entry>
  {
    if es == [] then []
    else
      var init, e := FirstOfEach(es[..|es| - 1]), es[|es| - 1];
      init + if exists x :: x in init && x.name == e.name then [] else [e]
  }

  function NodesFor(es: seq<Entry>, user: string, port: int): (ns: seq<Node>)
    ensures |ns| == |es|
  {
    seq(|es|, i requires 0 <= i < |es| => NodeFor(es[i], user, port))
  }

  datatype Loaded = Nodes(nodes: seq<Node>) | NoClusterNodes

  /** LoadInventory over the lines of the file. */
  method LoadInventory(lines: seq<string>, user0: string, port0: int) returns (r: Loaded)
    ensures var user, port := if user0 == "" then "hpc" else user0, if port0 == 0 then 22 else port0;
            var first := FirstOfEach(FileEntries(lines));
            r == if first == [] then NoClusterNodes else Nodes(NodesFor(first, user, port))
  {
    var port := if port0 == 0 then 22 else port0;
    var user := if user0 == "" then "hpc" else user0;
    var nodes: seq<Node> := [];
    var seen: set<string> := {};
    ghost var es: seq<Entry> := [];
    for i := 0 to |lines|
      invariant es == FileEntries(lines[..i]) && Collected(es, nodes, seen, user, port)
    {
      hide Collected, ClusterEntries, LineFields;
      FileEntriesNext(lines, i);
      ghost var before := es;
      var fs := LineFields(lines[i]);
      if fs != [] {
        nodes, seen := AddLine(fs, nodes, seen, before, user, port);
        es := before + ClusterEntries(fs[0], fs[1..]);
      }
      assert es == before + LineEntries(lines[i]);
    }
    assert lines[..|lines|] == lines;
    hide FirstOfEach, FileEntries;
    r := if |nodes| == 0 then NoClusterNodes else Nodes(nodes);
  }

  lemma FileEntriesNext(lines: seq<string>, i: nat)
    requires i < |lines|
    ensures FileEntries(lines[..i + 1]) == FileEntries(lines[..i]) + LineEntries(lines[i])
  {
    assert lines[..i + 1][..i] == lines[..i];
  }

  ghost predicate Collected(es: seq<Entry>, nodes: seq<Node>, seen: set<string>, user: string, port: int)
  {
    && nodes == NodesFor(FirstOfEach(es), user, port)
    && forall s :: s in seen <==> exists x :: x in FirstOfEach(es) && x.name == s
  }

  /** The loop over the names of one line. */
  method AddLine(fs: seq<string>, nodes0: seq<Node>, seen0: set<string>, ghost before: seq<Entry>,
                 user: string, port: int)
    returns (nodes: seq<Node>, seen: set<string>)
    requires |fs| >= 2 && Collected(before, nodes0, seen0, user, port)
    ensures Collected(before + ClusterEntries(fs[0], fs[1..]), nodes, seen, user, port)
  {
    nodes, seen := nodes0, seen0;
    ghost var es := before;
    var names := fs[1..];
    for k := 0 to |names|
      invariant es == before + ClusterEntries(fs[0], names[..k]) && Collected(es, nodes, seen, user, port)
    {
      assert names[..k + 1][..k] == names[..k];
      var name := Lower(names[k]);
      hide Collected, IsClusterHost, Lower;
      if IsClusterHost(name) {
        var e := Entry(fs[0], name);
        CollectedGrows(es, nodes, seen, user, port, e);
        if name !in seen {
          seen := seen + {name};
          nodes := nodes + [Node(name, fs[0], user, port, [if name == "master" then "control" else "compute"])];
        }
        es := es + [e];
      }
      assert es == before + ClusterEntries(fs[0], names[..k + 1]);
    }
    assert names[..|names|] == names;
  }

  lemma CollectedGrows(es: seq<Entry>, nodes: seq<Node>, seen: set<string>, user: string, port: int, e: Entry)
    requires Collected(es, nodes, seen, user, port)
    ensures if e.name in seen then Collected(es + [e], nodes, seen, user, port)
            else Collected(es + [e], nodes + [NodeFor(e, user, port)], seen + {e.name}, user, port)
  {
    var longer := es + [e];
    assert longer[..|es|] == es;
    if e.name !in seen {
      assert FirstOfEach(longer) == FirstOfEach(es) + [e];
      assert forall x :: x in FirstOfEach(longer) <==> x in FirstOfEach(es) || x == e;
    }
  }

  // ---------------------------------------------------------------------------
  // What LoadInventory finds

  /** `x` occurs in `es`, before any other entry of its name. */
  ghost predicate FirstIn(es: seq<Entry>, x: Entry)
  {
    exists k :: 0 <= k < |es| && es[k] == x && forall j :: 0 <= j < k ==> es[j].name != x.name
  }

  ghost predicate NameIn(es: seq<Entry>, name: string)
  {
    exists x :: x in es && x.name == name
  }

  lemma NameInAppend(es: seq<Entry>, e: Entry, name: string)
    ensures NameIn(es + [e], name) <==> NameIn(es, name) || e.name == name
  {
    assert forall x :: x in es + [e] <==> x in es || x == e;
    if e.name == name { assert e in es + [e]; }
  }

  lemma FirstInAppend(es: seq<Entry>, e: Entry, x: Entry)
    requires FirstIn(es, x) || (x == e && !NameIn(es, e.name))
    ensures FirstIn(es + [e], x)
  {
    var longer := es + [e];
    if FirstIn(es, x) {
      var k :| 0 <= k < |es| && es[k] == x && forall j :: 0 <= j < k ==> es[j].name != x.name;
      assert longer[k] == x;
    } else {
      forall j | 0 <= j < |es| ensures longer[j].name != x.name { assert es[j] in es; }
      assert longer[|es|] == x;
    }
  }

  ghost predicate Distinct(es: seq<Entry>)
  {
    forall i, j :: 0 <= i < j < |es| ==> es[i].name != es[j].name
  }

  lemma DistinctAppend(es: seq<Entry>, e: Entry)
    requires Distinct(es) && !NameIn(es, e.name)
    ensures Distinct(es + [e])
  {
    forall i | 0 <= i < |es| ensures es[i].name != e.name { assert es[i] in es; }
  }

  /** Each name once, with the address of its first occurrence, and no name is missed. */
  lemma {:induction false} FirstOfEachIs(es: seq<Entry>)
    ensures var f := FirstOfEach(es);
            && Distinct(f)
            && (forall x :: x in f ==> FirstIn(es, x))
            && (forall s :: NameIn(f, s) <==> NameIn(es, s))
  {
    if es != [] {
      var init, e := es[..|es| - 1], es[|es| - 1];
      assert es == init + [e];
      FirstOfEachIs(init);
      var f, f' := FirstOfEach(init), FirstOfEach(es);
      assert f' == if NameIn(f, e.name) then f else f + [e];
      assert forall i :: 0 <= i < |f| ==> f[i] in f;
      hide FirstIn, FirstOfEach;
      if !NameIn(f, e.name) { DistinctAppend(f, e); }
      forall x | x in f' ensures FirstIn(es, x) {
        FirstInAppend(init, e, x);
      }
      forall s ensures NameIn(f', s) <==> NameIn(es, s) {
        NameInAppend(init, e, s);
        NameInAppend(f, e, s);
      }
    }
  }

  lemma {:induction false} EntriesAreCluster(ip: string, names: seq<string>, e: Entry)
    ensures e in ClusterEntries(ip, names) <==>
            e.ip == ip && IsClusterHost(e.name) && exists k :: 0 <= k < |names| && Lower(names[k]) == e.name
  {
    if names != [] {
      var init, last := names[..|names| - 1], names[|names| - 1];
      EntriesAreCluster(ip, init, e);
      assert forall k :: 0 <= k < |init| ==> init[k] == names[k];
      hide IsClusterHost, Lower;
      if k :| 0 <= k < |init| && Lower(init[k]) == e.name { assert Lower(names[k]) == e.name; }
      if Lower(last) == e.name { assert Lower(names[|names| - 1]) == e.name; }
    }
  }

  lemma {:induction false} FileEntriesFrom(lines: seq<string>, e: Entry)
    ensures e in FileEntries(lines) <==> exists i :: 0 <= i < |lines| && e in LineEntries(lines[i])
  {
    hide LineEntries;
    if lines != [] {
      var init, last := lines[..|lines| - 1], lines[|lines| - 1];
      FileEntriesFrom(init, e);
      assert forall i :: 0 <= i < |init| ==> init[i] == lines[i];
      if i :| 0 <= i < |init| && e in LineEntries(init[i]) { assert e in LineEntries(lines[i]); }
      if e in LineEntries(last) { assert e in LineEntries(lines[|lines| - 1]); }
    }
  }

  /** The kept entries come in the order of the file: `at` gives their places, in ascending order,
      and those are all the places where a name occurs for the first time. */
  lemma {:induction false} FirstOfEachInOrder(es: seq<Entry>) returns (at: seq<nat>)
    ensures |at| == |FirstOfEach(es)|
    ensures forall k :: 0 <= k < |at| ==> at[k] < |es| && es[at[k]] == FirstOfEach(es)[k]
    ensures forall j, k :: 0 <= j < k < |at| ==> at[j] < at[k]
    ensures forall i: nat :: i in at <==> i < |es| && !NameIn(es[..i], es[i].name)
  {
    at := [];
    if es != [] {
      var last := |es| - 1;
      var before := FirstOfEachInOrder(es[..last]);
      FirstOfEachIs(es[..last]);
      at := before + if NameIn(es[..last], es[last].name) then [] else [last];
      FirstOfEachNext(es, before, at);
    }
  }

  lemma FirstOfEachNext(es: seq<Entry>, before: seq<nat>, at: seq<nat>)
    requires es != []
    requires at == before + if NameIn(es[..|es| - 1], es[|es| - 1].name) then [] else [|es| - 1]
    requires NameIn(FirstOfEach(es[..|es| - 1]), es[|es| - 1].name) <==> NameIn(es[..|es| - 1], es[|es| - 1].name)
    requires |before| == |FirstOfEach(es[..|es| - 1])|
    requires forall k :: 0 <= k < |before| ==> before[k] < |es| - 1 && es[before[k]] == FirstOfEach(es[..|es| - 1])[k]
    requires forall i: nat :: i in before <==> i < |es| - 1 && !NameIn(es[..|es| - 1][..i], es[..|es| - 1][i].name)
    ensures |at| == |FirstOfEach(es)|
    ensures forall k :: 0 <= k < |at| ==> at[k] < |es| && es[at[k]] == FirstOfEach(es)[k]
    ensures forall i: nat :: i in at <==> i < |es| && !NameIn(es[..i], es[i].name)
  {
    var last, init := |es| - 1, es[..|es| - 1];
    var kept, grown := FirstOfEach(init), FirstOfEach(es);
    assert grown == kept + if NameIn(init, es[last].name) then [] else [es[last]];
    hide FirstOfEach;
    forall i: nat ensures i in at <==> i < |es| && !NameIn(es[..i], es[i].name) {
      if i < last { assert init[..i] == es[..i] && init[i] == es[i]; }
      if i == last { assert es[..i] == init; }
    }
    forall k | 0 <= k < |at| ensures at[k] < |es| && es[at[k]] == grown[k] {
      if k < |before| { assert at[k] == before[k] && grown[k] == kept[k]; }
    }
  }

  /** LoadInventory's nodes meet what the merge relies on, and are exactly the cluster
      names of the file, each with the address of its first entry and the given user and port. */
  lemma LoadedNodes(lines: seq<string>, user: string, port: int)
    requires user != "" && port != 0
    ensures var nodes := NodesFor(FirstOfEach(FileEntries(lines)), user, port);
            && WellMade(nodes)
            && (forall s :: HasName(nodes, s) <==>
                  exists ip, i :: 0 <= i < |lines| && Entry(ip, s) in LineEntries(lines[i]))
            && (forall n :: n in nodes ==> n.groups == [if n.name == "master" then "control" else "compute"])
            && (forall n :: n in nodes ==> n.user == user && n.port == port)
            && (forall n :: n in nodes ==> FirstIn(FileEntries(lines), Entry(n.host, n.name)))
  {
    var f := FirstOfEach(FileEntries(lines));
    FirstOfEachIs(FileEntries(lines));
    hide FirstOfEach, LineEntries, FileEntries, FirstIn, NameIn;
    forall s
      ensures HasName(NodesFor(f, user, port), s) <==>
              exists ip, i :: 0 <= i < |lines| && Entry(ip, s) in LineEntries(lines[i])
    {
      NodeNames(f, user, port, s);
      NameInFile(lines, s);
    }
  }

  lemma {:induction false} FileEntriesAppend(a: seq<string>, b: seq<string>)
    ensures FileEntries(a + b) == FileEntries(a) + FileEntries(b)
    decreases |b|
  {
    hide FileEntries;
    if b == [] {
      assert a + b == a;
      NoEntries();
    } else {
      var init, last := b[..|b| - 1], b[|b| - 1];
      FileEntriesAppend(a, init);
      FileEntriesLast(a + init, last);
      FileEntriesLast(init, last);
      Associative(a, init, [last]);
      Associative(FileEntries(a), FileEntries(init), LineEntries(last));
      assert b == init + [last];
    }
  }

  lemma NoEntries()
    ensures FileEntries([]) == []
  {
  }

  lemma FileEntriesLast(lines: seq<string>, line: string)
    ensures FileEntries(lines + [line]) == FileEntries(lines) + LineEntries(line)
  {
    hide LineEntries;
    assert (lines + [line])[..|lines|] == lines;
  }

  /** The entries of a file are those of its lines in order: a line puts its own in at its place. */
  lemma LineInFile(before: seq<string>, line: string, after: seq<string>)
    ensures FileEntries(before + [line] + after) == FileEntries(before) + LineEntries(line) + FileEntries(after)
  {
    hide LineEntries;
    FileEntriesAppend(before + [line], after);
    FileEntriesAppend(before, [line]);
    assert [line][..0] == [];
  }

  /** A line that is blank, or whose first character other than white space is the comment
      sign, gives nothing. */
  lemma CommentGivesNothing(pre: string, rest: string)
    requires All(pre, IsSpace)
    ensures LineEntries(pre) == [] && LineEntries(pre + "#" + rest) == []
  {
    TrimBlank(pre);
    var x := "#" + rest;
    assert pre + "#" + rest == pre + x;
    hide Trim;
    var y, b := TrimKeepsFirst(pre, x);
  }

  /** So LoadInventory, whose result depends on the entries alone, does not see such a line. */
  lemma CommentChangesNothing(before: seq<string>, pre: string, rest: string, after: seq<string>)
    requires All(pre, IsSpace)
    ensures FileEntries(before + [pre + "#" + rest] + after) == FileEntries(before + after)
    ensures FileEntries(before + [pre] + after) == FileEntries(before + after)
  {
    CommentGivesNothing(pre, rest);
    hide LineEntries, FileEntries;
    EmptyLineInFile(before, pre + "#" + rest, after);
    EmptyLineInFile(before, pre, after);
  }

  lemma EmptyLineInFile(before: seq<string>, line: string, after: seq<string>)
    requires LineEntries(line) == []
    ensures FileEntries(before + [line] + after) == FileEntries(before + after)
  {
    hide LineEntries, FileEntries;
    LineInFile(before, line, after);
    FileEntriesAppend(before, after);
  }

  lemma {:induction false} AllCluster(ip: string, names: seq<string>)
    requires forall k :: 0 <= k < |names| ==> IsClusterHost(Lower(names[k]))
    ensures |ClusterEntries(ip, names)| == |names|
    ensures forall k :: 0 <= k < |names| ==> ClusterEntries(ip, names)[k] == Entry(ip, Lower(names[k]))
  {
    hide IsClusterHost, Lower;
    if names != [] {
      AllCluster(ip, names[..|names| - 1]);
    }
  }

  /** A line of an address and cluster names, with white space of any kind around and between
      them and no comment sign in front, gives exactly those names in order, lower-cased. */
  lemma LineOfNames(ws: seq<(string, string)>, post: string)
    requires WellSpaced(ws) && All(post, IsSpace) && |ws| >= 2 && ws[0].1[0] != '#'
    requires forall k :: 1 <= k < |ws| ==> IsClusterHost(Lower(ws[k].1))
    ensures var es := LineEntries(Spelled(ws, post));
            |es| == |ws| - 1 && forall k :: 0 <= k < |es| ==> es[k] == Entry(ws[0].1, Lower(ws[k + 1].1))
  {
    SpelledHasWords(ws, post);
    hide IsFields, Spelled, WellSpaced, IsClusterHost, Lower;
    LineFieldsExact(Spelled(ws, post), Words(ws));
    AllCluster(ws[0].1, Words(ws)[1..]);
  }

  /** The names of the cluster: "master", and "node" followed by at least one decimal digit. */
  lemma ClusterNames(name: string)
    ensures IsClusterHost(name) <==>
            || name == "master"
            || exists d :: name == "node" + d && d != "" && forall i :: 0 <= i < |d| ==> d[i] in "0123456789"
  {
    forall c ensures IsDigit(c) <==> c in "0123456789" { DigitCharacters(c); }
    if IsClusterHost(name) && name != "master" {
      assert name == "node" + name[4..];
    }
    if d :| name == "node" + d && d != "" && forall i :: 0 <= i < |d| ==> d[i] in "0123456789" {
      assert name[4..] == d && name[..4] == "node";
    }
  }

  lemma NodeNames(f: seq<Entry>, user: string, port: int, s: string)
    ensures HasName(NodesFor(f, user, port), s) <==> NameIn(f, s)
  {
    var nodes := NodesFor(f, user, port);
    if k :| 0 <= k < |nodes| && nodes[k].name == s { assert f[k] in f; }
    if NameIn(f, s) {
      var x :| x in f && x.name == s;
      var k :| 0 <= k < |f| && f[k] == x;
      assert nodes[k].name == s;
    }
  }

  lemma NameInFile(lines: seq<string>, s: string)
    ensures NameIn(FileEntries(lines), s) <==> exists ip, i :: 0 <= i < |lines| && Entry(ip, s) in LineEntries(lines[i])
  {
    hide LineEntries, FileEntries;
    if NameIn(FileEntries(lines), s) {
      var x :| x in FileEntries(lines) && x.name == s;
      FileEntriesFrom(lines, x);
      assert x == Entry(x.ip, s);
    }
    if ip, i :| 0 <= i < |lines| && Entry(ip, s) in LineEntries(lines[i]) {
      FileEntriesFrom(lines, Entry(ip, s));
    }
  }
}
