/** The step cache of internal/state/state.go: entries under "node:hash" keys,
    the digest preimage, and the JSON list the state file holds. */
module State {

  datatype Entry = Entry(node: string, stepName: string, hash: string, timestamp: int)

  /** The state file as Load meets it: absent, not parseable, or a list of entries. */
  datatype File = Missing | Corrupt | Saved(entries: seq<Entry>)

  function Key(node: string, hash: string): string
  {
    node + ":" + hash
  }

  function KeyOf(e: Entry): string
  {
    Key(e.node, e.hash)
  }

  /** The text handed to the digest for one node and step. */
  function Preimage(node: string, step: string, command: string): string
  {
    node + "|" + step + "|" + command
  }

  /** Every entry sits under its own key: the invariant of the `entries` map. */
  ghost predicate Keyed(m: map<string, Entry>)
  {
    forall k :: k in m ==> KeyOf(m[k]) == k
  }

  /** The map a list of entries denotes: on a repeated key the last one wins. */
  function Collect(entries: seq<Entry>): map<string, Entry>
  {
    if entries == [] then map[]
    else
      var last := entries[|entries| - 1];
      Collect(entries[..|entries| - 1])[KeyOf(last) := last]
  }

  function Contents(f: File): map<string, Entry>
  {
    if f.Saved? then Collect(f.entries) else map[]
  }

  /** Code-point order on strings, which is Go's byte order on their UTF-8 text. */
  predicate Less(a: string, b: string)
  {
    b != [] && (a == [] || a[0] < b[0] || (a[0] == b[0] && Less(a[1..], b[1..])))
  }

  /** Less is the order of a dictionary: a proper prefix comes first, and otherwise the smaller
      character at the first place where the texts differ. */
  lemma {:induction false} LessExact(a: string, b: string)
    ensures Less(a, b) <==> a < b || exists k :: FirstDifference(a, b, k) && a[k] < b[k]
  {
    if a != [] && b != [] && a[0] == b[0] {
      var x, y := a[1..], b[1..];
      LessExact(x, y);
      assert a < b <==> x < y;
      if k :| FirstDifference(x, y, k) && x[k] < y[k] { TailDifference(a, b, k); }
      if k :| FirstDifference(a, b, k) && a[k] < b[k] {
        assert k > 0;
        assert a[..k][1..] == x[..k - 1] && b[..k][1..] == y[..k - 1];
        assert FirstDifference(x, y, k - 1) && x[k - 1] < y[k - 1];
      }
    } else if a != [] && b != [] {
      assert FirstDifference(a, b, 0);
      assert forall k :: FirstDifference(a, b, k) && k > 0 ==> a[..k][0] == a[0] && b[..k][0] == b[0];
    }
  }

  predicate FirstDifference(a: string, b: string, k: int)
  {
    0 <= k < |a| && k < |b| && a[..k] == b[..k] && a[k] != b[k]
  }

  lemma TailDifference(a: string, b: string, k: int)
    requires a != [] && b != [] && a[0] == b[0] && FirstDifference(a[1..], b[1..], k)
    ensures FirstDifference(a, b, k + 1)
  {
    assert a[..k + 1] == [a[0]] + a[1..][..k] && b[..k + 1] == [b[0]] + b[1..][..k];
  }

  lemma {:induction false} LessAsymmetric(a: string, b: string)
    requires Less(a, b)
    ensures !Less(b, a)
  {
    if a != [] && a[0] == b[0] {
      LessAsymmetric(a[1..], b[1..]);
    }
  }

  /** The comparison Save hands to sort.Slice. It leaves ties between entries of
      one node and step, so several orders of the same entries are sorted. */
  predicate EntryLess(a: Entry, b: Entry)
  {
    if a.node != b.node then Less(a.node, b.node) else Less(a.stepName, b.stepName)
  }

  predicate Sorted(es: seq<Entry>)
  {
    forall i :: 0 <= i < |es| - 1 ==> !EntryLess(es[i + 1], es[i])
  }

  /** `es` lists every entry of `m` exactly once, in whatever order. */
  ghost predicate Lists(es: seq<Entry>, m: map<string, Entry>)
  {
    && (forall i, j :: 0 <= i < j < |es| ==> KeyOf(es[i]) != KeyOf(es[j]))
    && (forall i :: 0 <= i < |es| ==> KeyOf(es[i]) in m && m[KeyOf(es[i])] == es[i])
    && (forall k :: k in m ==> exists i :: 0 <= i < |es| && KeyOf(es[i]) == k)
  }

  /** A file Save may leave for the map `m`: any sorted listing of it. */
  ghost predicate Image(es: seq<Entry>, m: map<string, Entry>)
  {
    Lists(es, m) && Sorted(es)
  }

  lemma {:induction false} CollectIsKeyed(es: seq<Entry>)
    ensures Keyed(Collect(es))
  {
    if es != [] {
      CollectIsKeyed(es[..|es| - 1]);
    }
  }

  ghost predicate Occurs(es: seq<Entry>, k: string)
  {
    exists i :: 0 <= i < |es| && KeyOf(es[i]) == k
  }

  /** A key is collected exactly when some entry carries it. */
  lemma {:induction false} CollectKeys(es: seq<Entry>, k: string)
    ensures k in Collect(es) <==> Occurs(es, k)
  {
    if es != [] {
      var init, last := es[..|es| - 1], es[|es| - 1];
      CollectKeys(init, k);
      if Occurs(es, k) && KeyOf(last) != k {
        var i :| 0 <= i < |es| && KeyOf(es[i]) == k;
        assert init[i] == es[i];
      }
    }
  }

  /** Without repeated keys every entry is found under its own key. */
  lemma {:induction false} CollectFinds(es: seq<Entry>, i: nat)
    requires forall i, j :: 0 <= i < j < |es| ==> KeyOf(es[i]) != KeyOf(es[j])
    requires i < |es|
    ensures KeyOf(es[i]) in Collect(es) && Collect(es)[KeyOf(es[i])] == es[i]
  {
    if i < |es| - 1 {
      CollectFinds(es[..|es| - 1], i);
    }
  }

  /** Save then Load restores the map exactly, whichever listing Save left. */
  lemma RoundTrip(es: seq<Entry>, m: map<string, Entry>)
    requires Lists(es, m)
    ensures Contents(Saved(es)) == m
  {
    hide Collect;
    var c := Collect(es);
    forall k ensures k in c <==> k in m {
      CollectKeys(es, k);
    }
    forall k | k in c ensures c[k] == m[k] {
      CollectKeys(es, k);
      var i :| 0 <= i < |es| && KeyOf(es[i]) == k;
      CollectFinds(es, i);
    }
  }

  /** A listing exists only for a map whose entries sit under their own keys,
      so the invariant that Load and Mark keep is what the round trip rests on. */
  lemma ListedMapsAreKeyed(es: seq<Entry>, m: map<string, Entry>)
    requires Lists(es, m)
    ensures Keyed(m)
  {
    RoundTrip(es, m);
    CollectIsKeyed(es);
  }

  /** One name goes on with a pipe after the other: its rest can pose as a command. */
  predicate Overlap(s1: string, s2: string)
  {
    s1 + "|" <= s2 || s2 + "|" <= s1
  }

  /** On one node, names that do not overlap make the preimage injective. */
  lemma PreimageInjective(node: string, s1: string, c1: string, s2: string, c2: string)
    requires !Overlap(s1, s2)
    requires Preimage(node, s1, c1) == Preimage(node, s2, c2)
    ensures s1 == s2 && c1 == c2
  {
    var p1, p2 := Preimage(node, s1, c1), Preimage(node, s2, c2);
    var t1, t2 := s1 + "|" + c1, s2 + "|" + c2;
    assert p1[|node| + 1..] == t1 && p2[|node| + 1..] == t2;
    assert t1[..|s1|] == s1 && t2[..|s2|] == s2;
    if |s1| < |s2| {
      ShorterIsInside(s1, c1, s2, c2);
    } else if |s2| < |s1| {
      ShorterIsInside(s2, c2, s1, c1);
    } else {
      assert t1[|s1| + 1..] == c1 && t2[|s2| + 1..] == c2;
    }
  }

  lemma ShorterIsInside(s1: string, c1: string, s2: string, c2: string)
    requires s1 + "|" + c1 == s2 + "|" + c2 && |s1| < |s2|
    ensures s1 + "|" <= s2
  {
    var t := s1 + "|" + c1;
    assert t[..|s1| + 1] == s1 + "|" && t[..|s2|] == s2;
  }

  lemma OverlapCollides(node: string, s1: string, s2: string) returns (c1: string, c2: string)
    requires s1 + "|" <= s2
    ensures Preimage(node, s1, c1) == Preimage(node, s2, c2)
  {
    c1, c2 := s2[|s1| + 1..] + "|", "";
    assert s2 == s1 + "|" + s2[|s1| + 1..];
  }

  /** Two names share a preimage for some commands exactly when they are equal or overlap.
      Then two different steps can share a cache entry. */
  lemma PipesCollide(node: string, s1: string, s2: string)
    ensures (exists c1, c2 :: Preimage(node, s1, c1) == Preimage(node, s2, c2)) <==> s1 == s2 || Overlap(s1, s2)
  {
    if c1, c2 :| Preimage(node, s1, c1) == Preimage(node, s2, c2) {
      if !Overlap(s1, s2) { PreimageInjective(node, s1, c1, s2, c2); }
    }
    if s1 == s2 {
      assert Preimage(node, s1, "") == Preimage(node, s2, "");
    } else if s1 + "|" <= s2 {
      var c1, c2 := OverlapCollides(node, s1, s2);
    } else if s2 + "|" <= s1 {
      var c2, c1 := OverlapCollides(node, s2, s1);
      assert Preimage(node, s1, c1) == Preimage(node, s2, c2);
    }
  }

  /** Names without a pipe never overlap. */
  lemma PipeFreeNamesDoNotOverlap(s1: string, s2: string)
    requires '|' !in s1 && '|' !in s2
    ensures !Overlap(s1, s2)
  {
    if s1 + "|" <= s2 { OverlapHasPipe(s1, s2); }
    if s2 + "|" <= s1 { OverlapHasPipe(s2, s1); }
  }

  lemma OverlapHasPipe(s1: string, s2: string)
    requires s1 + "|" <= s2
    ensures '|' in s2
  {
    assert s2[|s1|] == '|';
  }

  /** Digests of one width make the "node:hash" key injective. */
  lemma KeyInjective(n1: string, h1: string, n2: string, h2: string)
    requires |h1| == |h2|
    requires Key(n1, h1) == Key(n2, h2)
    ensures n1 == n2 && h1 == h2
  {
    var k1, k2 := Key(n1, h1), Key(n2, h2);
    assert |n1| == |n2|;
    assert k1[..|n1|] == n1 && k2[..|n2|] == n2;
    assert k1[|n1| + 1..] == h1 && k2[|n2| + 1..] == h2;
  }

  /** Insertion of one entry into a sorted listing; stands in for sort.Slice. */
  function Insert(e: Entry, es: seq<Entry>): (r: seq<Entry>)
    requires Sorted(es)
    ensures Sorted(r) && |r| == |es| + 1 && multiset(r) == multiset(es) + multiset{e}
    ensures r[0] == e || (es != [] && r[0] == es[0])
  {
    if es == [] || !EntryLess(es[0], e) then
      SortedCons(e, es);
      [e] + es
    else
      SortedTail(es);
      EntryLessAsymmetric(es[0], e);
      var rest := Insert(e, es[1..]);
      SortedCons(es[0], rest);
      assert es == [es[0]] + es[1..];
      [es[0]] + rest
  }

  lemma SortedCons(e: Entry, es: seq<Entry>)
    requires Sorted(es) && (es != [] ==> !EntryLess(es[0], e))
    ensures Sorted([e] + es)
  {
    hide EntryLess;
    var r := [e] + es;
    forall i | 0 <= i < |r| - 1 ensures !EntryLess(r[i + 1], r[i]) {
      assert i > 0 ==> r[i] == es[i - 1] && r[i + 1] == es[i];
    }
  }

  lemma EntryLessAsymmetric(a: Entry, b: Entry)
    requires EntryLess(a, b)
    ensures !EntryLess(b, a)
  {
    if a.node != b.node { LessAsymmetric(a.node, b.node); } else { LessAsymmetric(a.stepName, b.stepName); }
  }

  /** internal/state/state.go: State. The mutex makes each method one step. */
  class Store {
    var entries: map<string, Entry>

    ghost predicate Valid()
      reads this
    {
      Keyed(entries)
    }

    /** Load: a missing or corrupt file gives an empty store. */
    constructor (file: File)
      ensures Valid()
      ensures entries == Contents(file)
      ensures !file.Saved? ==> entries == map[]
    {
      entries := map[];
      new;
      if file.Saved? {
        for i := 0 to |file.entries|
          invariant entries == Collect(file.entries[..i])
        {
          var e := file.entries[i];
          assert file.entries[..i + 1][..i] == file.entries[..i];
          entries := entries[KeyOf(e) := e];
        }
        assert file.entries[..|file.entries|] == file.entries;
        CollectIsKeyed(file.entries);
      }
    }

    method Done(node: string, hash: string) returns (ok: bool)
      requires Valid()
      ensures ok <==> node + ":" + hash in entries
    {
      ok := Key(node, hash) in entries;
    }

    method Mark(node: string, stepName: string, hash: string, now: int)
      requires Valid()
      modifies this
      ensures Valid()
      ensures entries == old(entries)[node + ":" + hash := Entry(node, stepName, hash, now)]
    {
      entries := entries[Key(node, hash) := Entry(node, stepName, hash, now)];
    }

    /** Save: the map is copied out in some order, sorted, written and renamed
        into place; a failing write leaves the old file. */
    method Save(disk: File, writeOk: bool) returns (disk': File)
      requires Valid()
      ensures if writeOk then disk'.Saved? && Image(disk'.entries, entries) else disk' == disk
      ensures writeOk ==> Contents(disk') == entries
      ensures writeOk ==> forall i :: 0 <= i < |disk'.entries| - 1 ==>
                var e, f := disk'.entries[i], disk'.entries[i + 1];
                !Less(f.node, e.node) && (e.node == f.node ==> !Less(f.stepName, e.stepName))
    {
      var list := Listing();
      if writeOk {
        RoundTrip(list, entries);
        SortedByFields(list);
        disk' := Saved(list);
      } else {
        disk' := disk;
      }
    }

    /** The entries copied out of the map and sorted. */
    method Listing() returns (list: seq<Entry>)
      requires Valid()
      ensures Image(list, entries)
    {
      var todo := entries.Keys;
      list := [];
      while todo != {}
        invariant todo <= entries.Keys
        invariant Sorted(list)
        invariant Lists(list, map k | k in entries && k !in todo :: entries[k])
        decreases todo
      {
        hide Sorted, Lists, KeyOf;
        var k :| k in todo;
        ghost var done := map x | x in entries && x !in todo :: entries[x];
        ghost var grown := map x | x in entries && x !in todo - {k} :: entries[x];
        assert KeyOf(entries[k]) == k;
        assert grown == done[k := entries[k]];
        InsertLists(entries[k], list, done);
        list := Insert(entries[k], list);
        todo := todo - {k};
      }
      assert entries == map k | k in entries && k !in todo :: entries[k];
    }
  }

  /** Sorted means by node, and by step name within a node. */
  lemma SortedByFields(es: seq<Entry>)
    requires Sorted(es)
    ensures forall i :: 0 <= i < |es| - 1 ==>
              !Less(es[i + 1].node, es[i].node)
              && (es[i].node == es[i + 1].node ==> !Less(es[i + 1].stepName, es[i].stepName))
  {
    forall i | 0 <= i < |es| - 1
      ensures !Less(es[i + 1].node, es[i].node)
              && (es[i].node == es[i + 1].node ==> !Less(es[i + 1].stepName, es[i].stepName))
    {
      assert !EntryLess(es[i + 1], es[i]);
      if Less(es[i + 1].node, es[i].node) { LessAsymmetric(es[i + 1].node, es[i].node); }
    }
  }

  lemma InsertLists(e: Entry, es: seq<Entry>, m: map<string, Entry>)
    requires Sorted(es) && Lists(es, m) && KeyOf(e) !in m
    ensures Lists(Insert(e, es), m[KeyOf(e) := e])
  {
    var p := InsertAt(e, es);
    SplicedLists(e, es, p, m);
  }

  function Splice(e: Entry, es: seq<Entry>, p: nat): (r: seq<Entry>)
    requires p <= |es|
    ensures |r| == |es| + 1 && r[p] == e
    ensures forall i :: 0 <= i < |r| && i != p ==> r[i] == es[if i < p then i else i - 1]
  {
    es[..p] + [e] + es[p..]
  }

  lemma SplicedListsFind(e: Entry, es: seq<Entry>, p: nat, m: map<string, Entry>, k: string)
    requires Lists(es, m) && p <= |es| && (k in m || k == KeyOf(e))
    ensures exists i :: 0 <= i < |es| + 1 && KeyOf(Splice(e, es, p)[i]) == k
  {
    var r := Splice(e, es, p);
    if k == KeyOf(e) {
      assert KeyOf(r[p]) == k;
    } else {
      var i :| 0 <= i < |es| && KeyOf(es[i]) == k;
      var i' := if i < p then i else i + 1;
      assert r[i'] == es[i];
    }
  }

  lemma SplicedLists(e: Entry, es: seq<Entry>, p: nat, m: map<string, Entry>)
    requires Lists(es, m) && KeyOf(e) !in m && p <= |es|
    ensures Lists(Splice(e, es, p), m[KeyOf(e) := e])
  {
    hide KeyOf, Splice;
    var r := Splice(e, es, p);
    var m' := m[KeyOf(e) := e];
    forall k | k in m' ensures exists i :: 0 <= i < |r| && KeyOf(r[i]) == k {
      SplicedListsFind(e, es, p, m, k);
    }
  }

  lemma {:induction false} InsertAt(e: Entry, es: seq<Entry>) returns (p: nat)
    requires Sorted(es)
    ensures p <= |es| && Insert(e, es) == Splice(e, es, p)
  {
    if es == [] || !EntryLess(es[0], e) {
      p := 0;
      assert Insert(e, es) == Splice(e, es, 0);
    } else {
      SortedTail(es);
      hide EntryLess, Sorted;
      var q := InsertAt(e, es[1..]);
      p := q + 1;
      SpliceTail(e, es, q);
    }
  }

  lemma SpliceTail(e: Entry, es: seq<Entry>, q: nat)
    requires es != [] && q < |es|
    ensures [es[0]] + Splice(e, es[1..], q) == Splice(e, es, q + 1)
  {
    assert [es[0]] + es[1..][..q] == es[..q + 1];
    assert es[1..][q..] == es[q + 1..];
  }

  /** Every map that Load and Mark produce has a listing Save may leave. */
  lemma {:induction false} SomeListing(m: map<string, Entry>) returns (es: seq<Entry>)
    requires Keyed(m)
    ensures Image(es, m)
    decreases |m|
  {
    if m == map[] {
      es := [];
    } else {
      var k :| k in m;
      var rest := m - {k};
      assert rest.Keys == m.Keys - {k};
      assert |rest| == |rest.Keys| < |m.Keys| == |m|;
      var tail := SomeListing(rest);
      InsertLists(m[k], tail, rest);
      assert m == rest[k := m[k]];
      es := Insert(m[k], tail);
    }
  }

  lemma SortedTail(es: seq<Entry>)
    requires Sorted(es) && es != []
    ensures Sorted(es[1..])
  {
    forall i | 0 <= i < |es[1..]| - 1 ensures !EntryLess(es[1..][i + 1], es[1..][i]) {
      assert !EntryLess(es[i + 2], es[i + 1]);
    }
  }
}
