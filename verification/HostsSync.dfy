/** buildHostsSyncCmds (cmd/cexec/main.go) and what the emitted program does to a node's
    /etc/hosts, seen as a list of lines. */
module HostsSync {
  import opened Text
  import opened Hosts
  import opened Wrappers

  /** The first cluster name of a line; the source breaks out of its loop there. */
  function FirstCluster(names: seq<string>): (r: Option<string>)
    ensures r.Some? ==> IsClusterHost(r.value)
  {
    if names == [] then None
    else if IsClusterHost(Lower(names[0])) then Some(Lower(names[0]))
    else FirstCluster(names[1..])
  }

  function LineCommand(line: string): seq<Entry>
  {
    var fs := LineFields(line);
    if fs == [] then []
    else
      match FirstCluster(fs[1..])
      case None => []
      case Some(name) => [Entry(fs[0], name)]
  }

  /** One grep-or-append command per entry; an empty list stands for the text
      "true # no cluster hosts found". */
  function Commands(lines: seq<string>): seq<Entry>
  {
    if lines == [] then [] else Commands(lines[..|lines| - 1]) + LineCommand(lines[|lines| - 1])
  }

  method BuildHostsSyncCmds(lines: seq<string>) returns (cmds: seq<Entry>)
    ensures cmds == Commands(lines)
  {
    cmds := [];
    for i := 0 to |lines|
      invariant cmds == Commands(lines[..i])
    {
      assert lines[..i + 1][..i] == lines[..i];
      var fs := LineFields(lines[i]);
      hide LineFields, IsClusterHost, Lower;
      if fs != [] {
        var name := FindCluster(fs[1..]);
        if name.Some? {
          cmds := cmds + [Entry(fs[0], name.value)];
        }
      }
    }
    assert lines[..|lines|] == lines;
  }

  /** The loop over the names of a line, left at the first cluster name. */
  method FindCluster(names: seq<string>) returns (r: Option<string>)
    ensures r == FirstCluster(names)
  {
    for k := 0 to |names|
      invariant FirstCluster(names) == FirstCluster(names[k..])
    {
      if IsClusterHost(Lower(names[k])) {
        return Some(Lower(names[k]));
      }
    }
    r := None;
  }

  // ---------------------------------------------------------------------------
  // The emitted program

  /** Whether an extended regular expression matches a whole text. */
  type Ere = (string, string) -> bool

  predicate IsBlank(c: char)
  {
    c == ' ' || '\t' <= c <= '\r'
  }

  /** grep -E "^IP[[:space:]]+NAME([[:space:]]|$)" on one line: an address part, blanks, the
      name, then a blank or the end. */
  ghost predicate LineMatches(ere: Ere, e: Entry, line: string)
  {
    exists a, b :: MatchesAt(ere, e, line, a, b)
  }

  /** The address part ends at `a`, the name starts at `b`. */
  predicate MatchesAt(ere: Ere, e: Entry, line: string, a: int, b: int)
  {
    && 0 <= a < b <= |line| && b + |e.name| <= |line|
    && ere(e.ip, line[..a]) && All(line[a..b], IsBlank)
    && line[b..b + |e.name|] == e.name
    && (b + |e.name| == |line| || IsBlank(line[b + |e.name|]))
  }

  ghost predicate Present(ere: Ere, e: Entry, file: seq<string>)
  {
    exists i :: 0 <= i < |file| && LineMatches(ere, e, file[i])
  }

  function LineFor(e: Entry): string
  {
    e.ip + " " + e.name
  }

  /** The commands in order, each appending its line unless grep finds a match. */
  ghost function Sync(ere: Ere, cmds: seq<Entry>, file: seq<string>): (r: seq<string>)
    ensures file <= r
  {
    if cmds == [] then file
    else
      var f := Sync(ere, cmds[..|cmds| - 1], file);
      var e := cmds[|cmds| - 1];
      if Present(ere, e, f) then f else f + [LineFor(e)]
  }

  /** Each address, read as a pattern, matches itself. */
  ghost predicate SelfMatching(ere: Ere, cmds: seq<Entry>)
  {
    forall e :: e in cmds ==> ere(e.ip, e.ip)
  }

  /** The line reads: a text the address matches, blanks, the name, and then nothing or a blank
      and anything. */
  predicate Reads(ere: Ere, e: Entry, line: string, x: string, gap: string, tail: string)
  {
    && line == x + gap + e.name + tail && ere(e.ip, x)
    && gap != "" && AllBlank(gap) && (tail == "" || AllBlank(tail[..1]))
  }

  /** What the pattern finds, in terms of the parts of the line. */
  lemma LineMatchesExact(ere: Ere, e: Entry, line: string)
    ensures LineMatches(ere, e, line) <==> exists x, gap, tail :: Reads(ere, e, line, x, gap, tail)
  {
    hide LineMatches, Reads;
    if LineMatches(ere, e, line) {
      var x, gap, tail := MatchReads(ere, e, line);
    }
    if x, gap, tail :| Reads(ere, e, line, x, gap, tail) {
      ReadsMatch(ere, e, line, x, gap, tail);
    }
  }

  lemma MatchReads(ere: Ere, e: Entry, line: string) returns (x: string, gap: string, tail: string)
    requires LineMatches(ere, e, line)
    ensures Reads(ere, e, line, x, gap, tail)
  {
    var a, b :| MatchesAt(ere, e, line, a, b);
    hide LineMatches, Reads, All, IsBlank;
    x, gap, tail := Parts(line, a, b, e.name);
    MakeReads(ere, e, line, x, gap, tail);
  }

  lemma MakeReads(ere: Ere, e: Entry, line: string, x: string, gap: string, tail: string)
    requires line == x + gap + e.name + tail && ere(e.ip, x)
    requires gap != "" && All(gap, IsBlank) && (tail == "" || IsBlank(tail[0]))
    ensures Reads(ere, e, line, x, gap, tail)
  {
    BlanksAre(gap);
    if tail != "" { OneBlank(tail[0]); }
  }

  lemma BlanksAre(s: string)
    requires All(s, IsBlank)
    ensures AllBlank(s)
  {
    forall c ensures IsBlank(c) <==> c in " \t\n\U{0B}\U{0C}\r" {}
  }

  lemma OneBlank(c: char)
    requires IsBlank(c)
    ensures AllBlank([c])
  {
  }

  lemma Parts(line: string, a: nat, b: nat, name: string) returns (x: string, gap: string, tail: string)
    requires a < b && b + |name| <= |line| && line[b..b + |name|] == name
    ensures x == line[..a] && gap == line[a..b] && gap != "" && line == x + gap + name + tail
    ensures tail == "" <==> b + |name| == |line|
    ensures tail != "" ==> tail[0] == line[b + |name|]
  {
    x, gap, tail := line[..a], line[a..b], line[b + |name|..];
  }

  lemma ReadsMatch(ere: Ere, e: Entry, line: string, x: string, gap: string, tail: string)
    requires Reads(ere, e, line, x, gap, tail)
    ensures LineMatches(ere, e, line)
  {
    var a, b := |x|, |x| + |gap|;
    assert line[..a] == x && line[a..b] == gap && line[b..b + |e.name|] == e.name && line[b + |e.name|..] == tail;
    assert tail != "" ==> line[b + |e.name|] == tail[0] == tail[..1][0];
    assert forall i :: 0 <= i < |gap| ==> gap[i] in " \t\n\U{0B}\U{0C}\r" && IsBlank(gap[i]);
    assert MatchesAt(ere, e, line, a, b);
  }

  /** [[:space:]] in the POSIX locale, character by character. */
  predicate AllBlank(s: string)
  {
    forall i :: 0 <= i < |s| ==> s[i] in " \t\n\U{0B}\U{0C}\r"
  }

  /** What a command does: nothing to a file that has its entry, and one line at the end of any
      other, the address and the name with one space between them. */
  lemma CommandAppends(ere: Ere, cmds: seq<Entry>, e: Entry, file: seq<string>)
    ensures var f := Sync(ere, cmds, file);
            Sync(ere, cmds + [e], file) == if Present(ere, e, f) then f else f + [e.ip + " " + e.name]
  {
    hide Present;
    assert (cmds + [e])[..|cmds|] == cmds;
  }

  lemma AppendedLineMatches(ere: Ere, e: Entry)
    requires ere(e.ip, e.ip)
    ensures LineMatches(ere, e, LineFor(e))
  {
    var line, a, b := LineFor(e), |e.ip|, |e.ip| + 1;
    assert line[..a] == e.ip;
    assert line[a..b] == " ";
    assert line[b..b + |e.name|] == e.name;
    assert MatchesAt(ere, e, line, a, b);
  }

  lemma PresentStays(ere: Ere, e: Entry, file: seq<string>, longer: seq<string>)
    requires Present(ere, e, file) && file <= longer
    ensures Present(ere, e, longer)
  {
    var i :| 0 <= i < |file| && LineMatches(ere, e, file[i]);
    assert longer[i] == file[i];
  }

  /** Afterwards every emitted pattern matches some line. */
  lemma {:induction false} SyncCovers(ere: Ere, cmds: seq<Entry>, file: seq<string>, e: Entry)
    requires SelfMatching(ere, cmds) && e in cmds
    ensures Present(ere, e, Sync(ere, cmds, file))
  {
    hide LineMatches;
    var init, last := cmds[..|cmds| - 1], cmds[|cmds| - 1];
    assert cmds == init + [last];
    var f, r := Sync(ere, init, file), Sync(ere, cmds, file);
    if e in init {
      SyncCovers(ere, init, file, e);
      PresentStays(ere, e, f, r);
    } else if !Present(ere, e, f) {
      AppendedLineMatches(ere, e);
      assert r[|f|] == LineFor(e);
    }
  }

  lemma {:induction false} NothingToDo(ere: Ere, cmds: seq<Entry>, file: seq<string>)
    requires forall e :: e in cmds ==> Present(ere, e, file)
    ensures Sync(ere, cmds, file) == file
  {
    if cmds != [] {
      assert cmds == cmds[..|cmds| - 1] + [cmds[|cmds| - 1]];
      NothingToDo(ere, cmds[..|cmds| - 1], file);
    }
  }

  /** Idempotence: running the program again changes nothing. */
  lemma SyncIsIdempotent(ere: Ere, cmds: seq<Entry>, file: seq<string>)
    requires SelfMatching(ere, cmds)
    ensures Sync(ere, cmds, Sync(ere, cmds, file)) == Sync(ere, cmds, file)
  {
    forall e | e in cmds ensures Present(ere, e, Sync(ere, cmds, file)) {
      SyncCovers(ere, cmds, file, e);
    }
    NothingToDo(ere, cmds, Sync(ere, cmds, file));
  }

  /** `added` holds lines of the commands, none whose pattern matched the file before,
      and no line twice. */
  ghost predicate Appended(ere: Ere, cmds: seq<Entry>, file: seq<string>, added: seq<string>)
  {
    && (forall i :: 0 <= i < |added| ==> Needed(ere, cmds, file, added[i]))
    && (forall i, j :: 0 <= i < j < |added| ==> added[i] != added[j])
  }

  /** The line of a command whose pattern the file did not match. */
  ghost predicate Needed(ere: Ere, cmds: seq<Entry>, file: seq<string>, line: string)
  {
    exists e :: e in cmds && line == LineFor(e) && !Present(ere, e, file)
  }

  lemma NeededGrows(ere: Ere, init: seq<Entry>, last: Entry, file: seq<string>, line: string)
    requires Needed(ere, init, file, line) || (line == LineFor(last) && !Present(ere, last, file))
    ensures Needed(ere, init + [last], file, line)
  {
    hide Present, LineFor;
    if Needed(ere, init, file, line) {
      var e :| e in init && line == LineFor(e) && !Present(ere, e, file);
      assert e in init + [last];
    } else {
      assert last in init + [last];
    }
  }

  /** At most one line is appended per distinct pair, and none that was already there. */
  lemma {:induction false} AppendedOnce(ere: Ere, cmds: seq<Entry>, file: seq<string>)
    requires SelfMatching(ere, cmds)
    ensures Appended(ere, cmds, file, Sync(ere, cmds, file)[|file|..])
  {
    if cmds != [] {
      var init, last := cmds[..|cmds| - 1], cmds[|cmds| - 1];
      assert cmds == init + [last];
      var f := Sync(ere, init, file);
      AppendedOnce(ere, init, file);
      hide LineMatches, LineFor;
      AppendedGrows(ere, init, last, file, f[|file|..]);
      if !Present(ere, last, f) {
        if Present(ere, last, file) { PresentStays(ere, last, file, f); }
        forall i | |file| <= i < |f| ensures f[i] != LineFor(last) {
          AppendedLineMatches(ere, last);
        }
        assert (f + [LineFor(last)])[|file|..] == f[|file|..] + [LineFor(last)];
      }
    }
  }

  lemma AppendedGrows(ere: Ere, init: seq<Entry>, last: Entry, file: seq<string>, added: seq<string>)
    requires Appended(ere, init, file, added)
    ensures Appended(ere, init + [last], file, added)
    ensures !Present(ere, last, file) && LineFor(last) !in added ==>
              Appended(ere, init + [last], file, added + [LineFor(last)])
  {
    hide Present, LineFor, Needed;
    var longer := added + [LineFor(last)];
    forall i | 0 <= i < |longer| && (i < |added| || !Present(ere, last, file))
      ensures Needed(ere, init + [last], file, longer[i])
    {
      NeededGrows(ere, init, last, file, longer[i]);
    }
    assert forall i :: 0 <= i < |added| ==> longer[i] == added[i];
  }

  // ---------------------------------------------------------------------------
  // Which names are synced

  lemma {:induction false} CommandsFrom(lines: seq<string>, e: Entry)
    ensures e in Commands(lines) <==> exists i :: 0 <= i < |lines| && e in LineCommand(lines[i])
  {
    hide LineCommand;
    if lines != [] {
      var init, last := lines[..|lines| - 1], lines[|lines| - 1];
      CommandsFrom(init, e);
      assert forall i :: 0 <= i < |init| ==> init[i] == lines[i];
      if i :| 0 <= i < |init| && e in LineCommand(init[i]) { assert e in LineCommand(lines[i]); }
      if e in LineCommand(last) { assert e in LineCommand(lines[|lines| - 1]); }
    }
  }

  /** The first cluster name, if there is one at all. */
  lemma {:induction false} FirstClusterIs(names: seq<string>)
    ensures match FirstCluster(names)
            case None => forall k :: 0 <= k < |names| ==> !IsClusterHost(Lower(names[k]))
            case Some(n) => exists k :: 0 <= k < |names| && Lower(names[k]) == n && IsClusterHost(n)
                                        && forall j :: 0 <= j < k ==> !IsClusterHost(Lower(names[j]))
  {
    hide IsClusterHost, Lower;
    if names != [] && !IsClusterHost(Lower(names[0])) {
      FirstClusterIs(names[1..]);
      assert forall k :: 0 <= k < |names| - 1 ==> names[1..][k] == names[k + 1];
      if FirstCluster(names).Some? {
        var n := FirstCluster(names).value;
        var k :| 0 <= k < |names[1..]| && Lower(names[1..][k]) == n && IsClusterHost(n)
                 && forall j :: 0 <= j < k ==> !IsClusterHost(Lower(names[1..][j]));
        assert Lower(names[k + 1]) == n;
        forall j | 0 <= j < k + 1 ensures !IsClusterHost(Lower(names[j])) {
          if j > 0 { assert names[1..][j - 1] == names[j]; }
        }
      } else {
        forall k | 0 <= k < |names| ensures !IsClusterHost(Lower(names[k])) {
          if k > 0 { assert names[1..][k - 1] == names[k]; }
        }
      }
    }
  }

  /** A line is synced exactly when it gives LoadInventory a node, and then by one command,
      for one of its entries. */
  lemma SyncedLines(line: string)
    ensures |LineCommand(line)| <= 1
    ensures LineCommand(line) == [] <==> LineEntries(line) == []
    ensures forall e :: e in LineCommand(line) ==> e in LineEntries(line)
  {
    var fs := LineFields(line);
    if fs != [] {
      var names := fs[1..];
      FirstClusterIs(names);
      hide IsClusterHost, Lower, LineFields;
      if FirstCluster(names).Some? {
        EntriesAreCluster(fs[0], names, Entry(fs[0], FirstCluster(names).value));
      } else if LineEntries(line) != [] {
        EntriesAreCluster(fs[0], names, LineEntries(line)[0]);
      }
    }
  }

  lemma {:induction false} EntriesPrepend(ip: string, name: string, names: seq<string>)
    ensures ClusterEntries(ip, [name] + names) ==
            (if IsClusterHost(Lower(name)) then [Entry(ip, Lower(name))] else []) + ClusterEntries(ip, names)
  {
    var all := [name] + names;
    if names == [] {
      assert all[..0] == [];
    } else {
      assert all[..|all| - 1] == [name] + names[..|names| - 1];
      EntriesPrepend(ip, name, names[..|names| - 1]);
    }
  }

  lemma {:induction false} FirstClusterIsFirstEntry(ip: string, names: seq<string>)
    ensures FirstCluster(names).None? <==> ClusterEntries(ip, names) == []
    ensures FirstCluster(names).Some? ==> ClusterEntries(ip, names)[0] == Entry(ip, FirstCluster(names).value)
  {
    hide IsClusterHost, Lower;
    if names != [] {
      assert names == [names[0]] + names[1..];
      EntriesPrepend(ip, names[0], names[1..]);
      FirstClusterIsFirstEntry(ip, names[1..]);
    }
  }

  /** A line is synced for the first of its entries and no other. */
  lemma OnlyFirstIsSynced(line: string)
    ensures LineCommand(line) == if LineEntries(line) == [] then [] else [LineEntries(line)[0]]
  {
    var fs := LineFields(line);
    if fs != [] {
      FirstClusterIsFirstEntry(fs[0], fs[1..]);
    }
  }

  /** Some line has this entry first. */
  ghost predicate Leads(lines: seq<string>, e: Entry)
  {
    exists i :: 0 <= i < |lines| && LineEntries(lines[i]) != [] && LineEntries(lines[i])[0] == e
  }

  /** Of a whole file, exactly the entries that come first on some line are synced; what only
      ever follows another cluster name is a node of the inventory no command mentions. */
  lemma SyncedEntries(lines: seq<string>, e: Entry)
    ensures e in Commands(lines) <==> Leads(lines, e)
  {
    CommandsFrom(lines, e);
    hide LineCommand, LineEntries;
    forall i | 0 <= i < |lines|
      ensures e in LineCommand(lines[i]) <==> LineEntries(lines[i]) != [] && LineEntries(lines[i])[0] == e
    {
      OnlyFirstIsSynced(lines[i]);
    }
  }

  /** The same by name: a name is in some command exactly when it is the first cluster name of
      some line. */
  lemma SyncedNames(lines: seq<string>, name: string)
    ensures (exists ip :: Entry(ip, name) in Commands(lines)) <==> exists ip :: Leads(lines, Entry(ip, name))
  {
    forall ip: string ensures Entry(ip, name) in Commands(lines) <==> Leads(lines, Entry(ip, name)) {
      SyncedEntries(lines, Entry(ip, name));
    }
  }

  /** The smallest such file: one line with "master" and "node1". LoadInventory finds node1,
      no command names it. */
  lemma SecondNameIsNotSynced(ip: string)
    requires ip != "" && All(ip, IsVisible) && ip[0] != '#'
    ensures var lines := [ip + " master node1"];
            && Entry(ip, "node1") in FileEntries(lines)
            && Commands(lines) == [Entry(ip, "master")]
  {
    var line, names := ip + " master node1", ["master", "node1"];
    SmallLine(ip);
    assert LineFields(line)[1..] == names;
    assert Lower("master") == "master" && Lower("node1") == "node1";
    assert IsClusterHost("master") && IsClusterHost("node1")
      by { assert "node1"[..4] == "node" && "node1"[4..] == "1"; }
    EntriesAreCluster(ip, names, Entry(ip, "node1"));
    assert Lower(names[1]) == "node1";
    assert [line][..0] == [];
  }

  lemma SmallLine(ip: string)
    requires ip != "" && All(ip, IsVisible) && ip[0] != '#'
    ensures LineFields(ip + " master node1") == [ip, "master", "node1"]
  {
    var ws, fs := [("", ip), (" ", "master"), (" ", "node1")], [ip, "master", "node1"];
    assert WellSpaced(ws);
    hide IsFields, Spelled, LineFields, WellSpaced;
    SpelledHasWords(ws, "");
    SmallSpelled(ip);
    assert Words(ws) == fs;
    LineFieldsExact(ip + " master node1", fs);
    assert fs[0] == ip && |fs| == 3;
  }

  lemma SmallSpelled(ip: string)
    ensures Spelled([("", ip), (" ", "master"), (" ", "node1")], "") == ip + " master node1"
  {
    var ws := [("", ip), (" ", "master"), (" ", "node1")];
    assert ws[1..] == [(" ", "master"), (" ", "node1")] && ws[1..][1..] == [(" ", "node1")] && ws[1..][1..][1..] == [];
    assert Spelled([(" ", "node1")], "") == " node1";
    assert Spelled(ws[1..], "") == " master" + " node1";
  }

  lemma {:induction false} CommandsAppend(a: seq<string>, b: seq<string>)
    ensures Commands(a + b) == Commands(a) + Commands(b)
    decreases |b|
  {
    if b == [] {
      assert a + b == a;
    } else {
      assert (a + b)[..|a + b| - 1] == a + b[..|b| - 1];
      CommandsAppend(a, b[..|b| - 1]);
    }
  }

  /** A blank or commented-out line anywhere in the file leaves the commands as they are. */
  lemma CommentHasNoCommand(before: seq<string>, pre: string, rest: string, after: seq<string>)
    requires All(pre, IsSpace)
    ensures LineCommand(pre + "#" + rest) == [] && LineCommand(pre) == []
    ensures Commands(before + [pre + "#" + rest] + after) == Commands(before + after)
    ensures Commands(before + [pre] + after) == Commands(before + after)
  {
    CommentGivesNothing(pre, rest);
    hide LineEntries, LineCommand, Commands;
    OnlyFirstIsSynced(pre);
    OnlyFirstIsSynced(pre + "#" + rest);
    SilentLine(before, pre, after);
    SilentLine(before, pre + "#" + rest, after);
  }

  lemma SilentLine(before: seq<string>, line: string, after: seq<string>)
    requires LineCommand(line) == []
    ensures Commands(before + [line] + after) == Commands(before + after)
  {
    hide LineCommand, Commands;
    CommandsAppend(before + [line], after);
    CommandsAppend(before, [line]);
    CommandsAppend(before, after);
    CommandsOfOne(line);
  }

  lemma CommandsOfOne(line: string)
    ensures Commands([line]) == LineCommand(line)
  {
    hide LineCommand;
    assert [line][..0] == [];
  }

  /** A new cluster line anywhere in the master's file puts its command into the emitted
      program at that place, and changes no other. */
  lemma NewLineChangesCommands(before: seq<string>, line: string, after: seq<string>)
    requires LineEntries(line) != []
    ensures Commands(before + [line] + after) == Commands(before) + [LineEntries(line)[0]] + Commands(after)
    ensures |Commands(before + [line] + after)| == |Commands(before + after)| + 1
  {
    OnlyFirstIsSynced(line);
    CommandsAppend(before + [line], after);
    CommandsAppend(before, [line]);
    CommandsAppend(before, after);
    assert [line][..0] == [];
  }
}
