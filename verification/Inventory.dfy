/** internal/inventory/inventory.go: nodes, defaults, range expansion and the merge of two
    inventories. */
module Inventory {
  import opened Text
  import opened Wrappers

  /** `password` is left out: it never comes from a file. */
  datatype Node = Node(name: string, host: string, user: string, port: int, groups: seq<string>)

  // ---------------------------------------------------------------------------
  // Range tokens such as "node3-node5" or "node3-5"

  datatype Range = Range(prefix: string, first: string, last: string)

  /** The text ^([a-zA-Z]+)(\d+)-(?:[a-zA-Z]+)?(\d+)$ matches, with its groups and the
      second prefix, which has no effect. */
  ghost predicate IsRangeText(t: string, r: Range, second: string)
  {
    && t == r.prefix + (r.first + ("-" + (second + r.last)))
    && r.prefix != "" && All(r.prefix, IsLetter) && r.first != "" && All(r.first, IsDigit)
    && All(second, IsLetter) && r.last != "" && All(r.last, IsDigit)
  }

  /** (?:[a-zA-Z]+)?(\d+)$ */
  function ParseLast(t: string): (r: Option<string>)
    ensures r.Some? ==> All(r.value, IsDigit)
  {
    var u := t[Span(t, IsLetter)..];
    if u == "" || Span(u, IsDigit) < |u| then None
    else
      assert u[..|u|] == u;
      Some(u)
  }

  function ParseRange(t: string): (r: Option<Range>)
    ensures r.Some? ==> All(r.value.first, IsDigit) && All(r.value.last, IsDigit)
  {
    var a := Span(t, IsLetter);
    var u := t[a..];
    var b := Span(u, IsDigit);
    if a == 0 || b == 0 || b == |u| || u[b] != '-' then None
    else
      match ParseLast(u[b + 1..])
      case None => None
      case Some(last) => Some(Range(t[..a], u[..b], last))
  }

  lemma ParseLastComplete(second: string, last: string)
    requires All(second, IsLetter) && last != "" && All(last, IsDigit)
    ensures ParseLast(second + last) == Some(last)
  {
    SpanIs(second, last, IsLetter);
    assert (second + last)[|second|..] == last;
    SpanIs(last, "", IsDigit);
    assert last + "" == last;
  }

  lemma ParseLastSound(t: string, last: string) returns (second: string)
    requires ParseLast(t) == Some(last)
    ensures t == second + last && All(second, IsLetter) && last != "" && All(last, IsDigit)
  {
    second := t[..Span(t, IsLetter)];
  }

  lemma ParseRangeSound(t: string, r: Range) returns (second: string)
    requires ParseRange(t) == Some(r)
    ensures IsRangeText(t, r, second)
  {
    hide ParseLast;
    var u := t[Span(t, IsLetter)..];
    var v := u[Span(u, IsDigit) + 1..];
    second := ParseLastSound(v, r.last);
    assert u == r.first + ("-" + v);
    assert t == r.prefix + u;
  }

  lemma ParseRangeComplete(t: string, r: Range, second: string)
    requires IsRangeText(t, r, second)
    ensures ParseRange(t) == Some(r)
  {
    ParseLastComplete(second, r.last);
    hide ParseLast;
    var t2 := second + r.last;
    var t1 := r.first + ("-" + t2);
    SpanIs(r.prefix, t1, IsLetter);
    SpanIs(r.first, "-" + t2, IsDigit);
    hide Span;
    Cut(r.prefix, t1);
    Cut(r.first, "-" + t2);
    assert t1[|r.first| + 1..] == t2 && t1[|r.first|] == '-';
  }

  lemma Cut(a: string, b: string)
    ensures (a + b)[..|a|] == a && (a + b)[|a|..] == b
  {
  }

  /** The parser finds exactly what the regular expression matches. */
  lemma ParseRangeExact(t: string, r: Range)
    ensures ParseRange(t) == Some(r) <==> exists second :: IsRangeText(t, r, second)
  {
    hide ParseRange, IsRangeText;
    if ParseRange(t) == Some(r) {
      var second := ParseRangeSound(t, r);
    }
    if second :| IsRangeText(t, r, second) {
      ParseRangeComplete(t, r, second);
    }
  }

  /** Atoi clamps a digit run beyond an int, and its error is dropped. With the largest int as
      an end, the slice for the names is too large to make, or the loop never passes it. */
  const MAX_INT := 0x7FFF_FFFF_FFFF_FFFF

  predicate Fits(t: string)
  {
    var r := ParseRange(Trim(t));
    r.Some? ==> Value(r.value.first) < MAX_INT && Value(r.value.last) < MAX_INT
  }

  function RangeNames(prefix: string, a: nat, b: nat): (names: seq<string>)
  {
    var lo, hi := if a <= b then a else b, if a <= b then b else a;
    seq(hi - lo + 1, k requires 0 <= k < hi - lo + 1 => prefix + Decimal(lo + k))
  }

  function Expanded(token: string): seq<string>
  {
    var t := Trim(token);
    match ParseRange(t)
    case None => [t]
    case Some(r) => RangeNames(r.prefix, Value(r.first), Value(r.last))
  }

  /** strconv.Atoi without its error */
  function Atoi(s: string): nat
    requires All(s, IsDigit)
  {
    if Value(s) < MAX_INT then Value(s) else MAX_INT
  }

  /** A token that is no range stands for itself, without the white space around it. */
  lemma PlainToken(token: string)
    requires forall rg, second :: !IsRangeText(Trim(token), rg, second)
    ensures Fits(token) && Expanded(token) == [Trim(token)]
  {
    if ParseRange(Trim(token)).Some? {
      var second := ParseRangeSound(Trim(token), ParseRange(Trim(token)).value);
    }
  }

  /** A range stands for the names with the numbers from the smaller to the larger, in that
      order, as long as both are below the largest int. */
  lemma RangeToken(token: string, rg: Range, second: string)
    requires IsRangeText(Trim(token), rg, second)
    ensures var a, b := Value(rg.first), Value(rg.last);
            var lo, hi := if a <= b then a else b, if a <= b then b else a;
            && (Fits(token) <==> hi < 0x7FFF_FFFF_FFFF_FFFF)
            && |Expanded(token)| == hi - lo + 1
            && forall k :: 0 <= k < |Expanded(token)| ==> Expanded(token)[k] == rg.prefix + Decimal(lo + k)
  {
    hide Value, Decimal, Trim, ParseRange;
    ParseRangeComplete(Trim(token), rg, second);
    assert Expanded(token) == RangeNames(rg.prefix, Value(rg.first), Value(rg.last));
    hide Expanded, IsRangeText;
  }

  /** expandToken. None stands for a call that panics or does not return. */
  method ExpandToken(token: string) returns (r: Option<seq<string>>)
    ensures (forall rg, second :: !IsRangeText(Trim(token), rg, second)) ==> r == Some([Trim(token)])
    ensures forall rg, second :: IsRangeText(Trim(token), rg, second) ==>
              var a, b := Value(rg.first), Value(rg.last);
              var lo, hi := if a <= b then a else b, if a <= b then b else a;
              if hi < 0x7FFF_FFFF_FFFF_FFFF then
                r.Some? && |r.value| == hi - lo + 1
                && forall k :: 0 <= k < |r.value| ==> r.value[k] == rg.prefix + Decimal(lo + k)
              else r == None
    ensures r == if Fits(token) then Some(Expanded(token)) else None
  {
    r := ExpandRange(token);
    hide Trim, Value, Decimal, Expanded, Fits;
    if forall rg, second :: !IsRangeText(Trim(token), rg, second) {
      PlainToken(token);
    }
    forall rg, second | IsRangeText(Trim(token), rg, second)
      ensures var a, b := Value(rg.first), Value(rg.last);
              var lo, hi := if a <= b then a else b, if a <= b then b else a;
              if hi < 0x7FFF_FFFF_FFFF_FFFF then
                r.Some? && |r.value| == hi - lo + 1
                && forall k :: 0 <= k < |r.value| ==> r.value[k] == rg.prefix + Decimal(lo + k)
              else r == None
    {
      RangeToken(token, rg, second);
    }
  }

  /** The body of expandToken. */
  method ExpandRange(token: string) returns (r: Option<seq<string>>)
    ensures r == if Fits(token) then Some(Expanded(token)) else None
  {
    hide Trim, ParseRange, Value, Decimal;
    var t := Trim(token);
    var m := ParseRange(t);
    if m.None? {
      return Some([t]);
    }
    var first, last := Atoi(m.value.first), Atoi(m.value.last);
    if first > last {
      first, last := last, first;
    }
    if last == MAX_INT {
      return None;
    }
    var names: seq<string> := [];
    for i := first to last + 1
      invariant |names| == i - first
      invariant forall k :: 0 <= k < |names| ==> names[k] == m.value.prefix + Decimal(first + k)
    {
      names := names + [m.value.prefix + Decimal(i)];
    }
    assert names == Expanded(token);
    r := Some(names);
  }

  /** A range does not depend on the order of its ends and holds |a-b|+1 different names. */
  lemma RangeProperties(prefix: string, a: nat, b: nat)
    ensures RangeNames(prefix, a, b) == RangeNames(prefix, b, a)
    ensures |RangeNames(prefix, a, b)| == (if a <= b then b - a else a - b) + 1
    ensures forall i, j :: 0 <= i < j < |RangeNames(prefix, a, b)| ==>
              RangeNames(prefix, a, b)[i] != RangeNames(prefix, a, b)[j]
    ensures forall k: nat :: prefix + Decimal(k) in RangeNames(prefix, a, b) <==> (a <= k <= b || b <= k <= a)
  {
    var names, lo := RangeNames(prefix, a, b), if a <= b then a else b;
    forall k: nat, i | 0 <= i < |names| && names[i] == prefix + Decimal(k) ensures k == lo + i {
      assert names[i][|prefix|..] == Decimal(lo + i) && (prefix + Decimal(k))[|prefix|..] == Decimal(k);
      DecimalInjective(k, lo + i);
    }
    forall k: nat ensures prefix + Decimal(k) in names <==> (a <= k <= b || b <= k <= a) {
      if a <= k <= b || b <= k <= a {
        assert names[k - lo] == prefix + Decimal(k);
      }
    }
  }

  /** Swapping the two numbers of a range token does not change its expansion. */
  lemma ReversedRange(t: string, u: string, r: Range)
    requires ParseRange(Trim(t)) == Some(r) && ParseRange(Trim(u)) == Some(Range(r.prefix, r.last, r.first))
    ensures Expanded(t) == Expanded(u)
  {
    RangeProperties(r.prefix, Value(r.first), Value(r.last));
  }

  function Flatten(tokens: seq<string>): seq<string>
  {
    if tokens == [] then [] else Flatten(tokens[..|tokens| - 1]) + Expanded(tokens[|tokens| - 1])
  }

  function ListNames(s: string): seq<string>
  {
    Flatten(Split(s, ','))
  }

  predicate ListFits(s: string)
  {
    forall i :: 0 <= i < |Split(s, ',')| ==> Fits(Split(s, ',')[i])
  }

  /** expandList */
  method ExpandList(s: string) returns (r: Option<seq<string>>)
    ensures r == if ListFits(s) then Some(ListNames(s)) else None
  {
    hide Fits, Expanded;
    var tokens := Split(s, ',');
    var names := [];
    for i := 0 to |tokens|
      invariant names == Flatten(tokens[..i])
      invariant forall j :: 0 <= j < i ==> Fits(tokens[j])
    {
      assert tokens[..i + 1][..i] == tokens[..i];
      var more := ExpandToken(tokens[i]);
      if more.None? {
        return None;
      }
      names := names + more.value;
    }
    assert tokens[..|tokens|] == tokens;
    r := Some(names);
  }

  /** The names of the tokens come in the order of the tokens: one token, */
  lemma ListOfOne(s: string)
    requires ',' !in s
    ensures ListNames(s) == Expanded(s) && (ListFits(s) <==> Fits(s))
  {
    hide Expanded, Fits, Split;
    SplitNothing(s);
    FlattenFirst(s, []);
    assert [s] + [] == [s] && [s][0] == s;
    assert Expanded(s) + Flatten([]) == Expanded(s);
  }

  /** and one before a list of others. */
  lemma ListOfMore(s: string, list: string)
    requires ',' !in s
    ensures ListNames(s + "," + list) == Expanded(s) + ListNames(list)
    ensures ListFits(s + "," + list) <==> Fits(s) && ListFits(list)
  {
    hide Expanded, Fits, Split, Flatten;
    SplitFirst(s, list, ',');
    FlattenFirst(s, Split(list, ','));
    var ts, rest := Split(s + "," + list, ','), Split(list, ',');
    assert s + "," + list == s + [','] + list;
    assert ts == [s] + rest;
    assert ts[0] == s && forall i :: 0 <= i < |rest| ==> ts[i + 1] == rest[i];
    if Fits(s) && ListFits(list) {
      forall i | 0 <= i < |ts| ensures Fits(ts[i]) { assert i > 0 ==> ts[i] == rest[i - 1]; }
    }
    if ListFits(s + "," + list) {
      forall i | 0 <= i < |rest| ensures Fits(rest[i]) { assert Fits(ts[i + 1]); }
    }
  }

  lemma SplitNothing(s: string)
    requires ',' !in s
    ensures Split(s, ',') == [s]
  {
    assert IndexOf(s, ',') == |s|;
    assert s[..|s|] == s;
  }

  lemma {:induction false} FlattenFirst(t: string, ts: seq<string>)
    ensures Flatten([t] + ts) == Expanded(t) + Flatten(ts)
  {
    hide Expanded;
    if ts == [] {
      assert [t] + ts == [t] && [t][..0] == [];
    } else {
      assert ([t] + ts)[..|ts|] == [t] + ts[..|ts| - 1];
      FlattenFirst(t, ts[..|ts| - 1]);
    }
  }

  /** A text without commas, white space or the form of a range. */
  ghost predicate Simple(s: string)
  {
    && ',' !in s && (forall i :: 0 <= i < |s| ==> !IsSpace(s[i]))
    && forall rg, second :: !IsRangeText(s, rg, second)
  }

  /** It is the whole list of its names. */
  lemma SimpleList(s: string)
    requires Simple(s)
    ensures ListFits(s) && ListNames(s) == [s]
  {
    assert Trim(s) == s by {
      if s == "" { TrimBlank(s); } else { TrimIs("", s, ""); assert "" + s + "" == s; }
    }
    hide Trim;
    ListOfOne(s);
    PlainToken(s);
  }

  /** The names of a list are those of its tokens. */
  lemma {:induction false} FlattenMembers(tokens: seq<string>, name: string)
    ensures name in Flatten(tokens) <==> exists i :: 0 <= i < |tokens| && name in Expanded(tokens[i])
  {
    hide Expanded;
    if tokens != [] {
      var init, last := tokens[..|tokens| - 1], tokens[|tokens| - 1];
      FlattenMembers(init, name);
      if name in Flatten(init) {
        var i :| 0 <= i < |init| && name in Expanded(init[i]);
        assert tokens[i] == init[i];
      }
      assert forall i :: 0 <= i < |init| ==> init[i] == tokens[i];
      assert name in Expanded(last) ==> name in Expanded(tokens[|tokens| - 1]);
    }
  }

  // ---------------------------------------------------------------------------
  // Load defaults and the merge of two inventories

  function Defaulted(n: Node): Node
  {
    n.(port := if n.port == 0 then 22 else n.port, user := if n.user == "" then "root" else n.user)
  }

  /** The loop of Load after parsing. */
  method ApplyDefaults(nodes: seq<Node>) returns (r: seq<Node>)
    ensures |r| == |nodes| && forall i :: 0 <= i < |nodes| ==> r[i] == Defaulted(nodes[i])
    ensures forall i :: 0 <= i < |nodes| ==>
              && r[i].name == nodes[i].name && r[i].host == nodes[i].host && r[i].groups == nodes[i].groups
              && r[i].port == (if nodes[i].port == 0 then 22 else nodes[i].port)
              && r[i].user == (if nodes[i].user == "" then "root" else nodes[i].user)
    ensures forall i :: 0 <= i < |r| ==> r[i].port != 0 && r[i].user != ""
    ensures (forall i :: 0 <= i < |nodes| ==> nodes[i].port != 0 && nodes[i].user != "") ==> r == nodes
  {
    r := nodes;
    for i := 0 to |nodes|
      invariant |r| == |nodes|
      invariant forall j :: 0 <= j < |nodes| ==> r[j] == if j < i then Defaulted(nodes[j]) else nodes[j]
    {
      if r[i].port == 0 {
        r := r[i := r[i].(port := 22)];
      }
      if r[i].user == "" {
        r := r[i := r[i].(user := "root")];
      }
    }
  }

  predicate HasName(nodes: seq<Node>, name: string)
  {
    exists i :: 0 <= i < |nodes| && nodes[i].name == name
  }

  ghost predicate UniqueNames(nodes: seq<Node>)
  {
    forall i, j :: 0 <= i < j < |nodes| ==> nodes[i].name != nodes[j].name
  }

  /** overlayMap: the last node of that name. */
  function LastNamed(nodes: seq<Node>, name: string): (r: Option<Node>)
    ensures r.Some? <==> HasName(nodes, name)
    ensures r.Some? ==> r.value in nodes && r.value.name == name
  {
    if nodes == [] then None
    else if nodes[|nodes| - 1].name == name then Some(nodes[|nodes| - 1])
    else
      var r := LastNamed(nodes[..|nodes| - 1], name);
      assert HasName(nodes, name) ==> HasName(nodes[..|nodes| - 1], name) by {
        if i :| 0 <= i < |nodes| && nodes[i].name == name {
          assert nodes[..|nodes| - 1][i] == nodes[i];
        }
      }
      r
  }

  /** A hosts entry with the metadata of its inventory entry; the IP stays. */
  function Overlaid(n: Node, overlay: seq<Node>): Node
  {
    match LastNamed(overlay, n.name)
    case None => n
    case Some(ov) =>
      n.(groups := ov.groups,
         port := if ov.port != 0 then ov.port else n.port,
         user := if ov.user != "" then ov.user else n.user)
  }

  function OverlaidAll(base: seq<Node>, overlay: seq<Node>): (r: seq<Node>)
    ensures |r| == |base|
  {
    seq(|base|, i requires 0 <= i < |base| => Overlaid(base[i], overlay))
  }

  /** The nodes of `xs` whose name `ys` lacks, in order. */
  function Lacking(xs: seq<Node>, ys: seq<Node>): seq<Node>
  {
    if xs == [] then []
    else
      var x := xs[|xs| - 1];
      Lacking(xs[..|xs| - 1], ys) + if HasName(ys, x.name) then [] else [x]
  }

  /** The loop that fills overlayMap. */
  method OverlayMap(overlay: seq<Node>) returns (overlayMap: map<string, Node>)
    ensures forall s :: s in overlayMap <==> LastNamed(overlay, s).Some?
    ensures forall s :: s in overlayMap ==> LastNamed(overlay, s) == Some(overlayMap[s])
  {
    overlayMap := map[];
    for i := 0 to |overlay|
      invariant forall s :: s in overlayMap <==> LastNamed(overlay[..i], s).Some?
      invariant forall s :: s in overlayMap ==> LastNamed(overlay[..i], s) == Some(overlayMap[s])
    {
      assert overlay[..i + 1][..i] == overlay[..i];
      forall s
        ensures LastNamed(overlay[..i + 1], s) ==
                if s == overlay[i].name then Some(overlay[i]) else LastNamed(overlay[..i], s) {}
      overlayMap := overlayMap[overlay[i].name := overlay[i]];
    }
    assert overlay[..|overlay|] == overlay;
  }

  /** The loop over the hosts nodes. */
  method MergeBase(base: seq<Node>, overlay: seq<Node>, overlayMap: map<string, Node>)
    returns (merged: seq<Node>, added: seq<Node>, baseSet: set<string>)
    requires forall s :: s in overlayMap <==> LastNamed(overlay, s).Some?
    requires forall s :: s in overlayMap ==> LastNamed(overlay, s) == Some(overlayMap[s])
    ensures merged == OverlaidAll(base, overlay) && added == Lacking(base, overlay)
    ensures baseSet == set j | 0 <= j < |base| :: base[j].name
  {
    hide LastNamed;
    baseSet, merged, added := {}, [], [];
    for i := 0 to |base|
      invariant baseSet == set j | 0 <= j < i :: base[j].name
      invariant |merged| == i && forall j :: 0 <= j < i ==> merged[j] == Overlaid(base[j], overlay)
      invariant added == Lacking(base[..i], overlay)
    {
      assert base[..i + 1][..i] == base[..i];
      var n := base[i];
      baseSet := baseSet + {n.name};
      if n.name in overlayMap {
        var ov := overlayMap[n.name];
        n := n.(groups := ov.groups);
        if ov.port != 0 { n := n.(port := ov.port); }
        if ov.user != "" { n := n.(user := ov.user); }
      } else {
        added := added + [n];
      }
      merged := merged + [n];
    }
    assert base[..|base|] == base;
  }

  /** MergeGroups */
  method MergeGroups(base: seq<Node>, overlay: seq<Node>)
    returns (merged: seq<Node>, added: seq<Node>, missing: seq<Node>)
    ensures merged == OverlaidAll(base, overlay) + Lacking(overlay, base)
    ensures added == Lacking(base, overlay)
    ensures missing == Lacking(overlay, base)
  {
    var overlayMap := OverlayMap(overlay);
    var baseSet;
    merged, added, baseSet := MergeBase(base, overlay, overlayMap);
    missing := [];
    for i := 0 to |overlay|
      invariant missing == Lacking(overlay[..i], base)
      invariant merged == OverlaidAll(base, overlay) + missing
    {
      assert overlay[..i + 1][..i] == overlay[..i];
      if overlay[i].name !in baseSet {
        missing := missing + [overlay[i]];
        merged := merged + [overlay[i]];
      }
    }
    assert overlay[..|overlay|] == overlay;
  }

  lemma {:induction false} LackingIs(xs: seq<Node>, ys: seq<Node>)
    ensures forall n :: n in Lacking(xs, ys) <==> n in xs && !HasName(ys, n.name)
    ensures |Lacking(xs, ys)| <= |xs|
  {
    hide HasName;
    if xs != [] {
      var init, x := xs[..|xs| - 1], xs[|xs| - 1];
      LackingIs(init, ys);
      assert xs == init + [x];
    }
  }

  /** The lacking nodes come in the order of their list, each occurrence once: `at` gives their
      places, in ascending order, and they are all the places whose name the other list lacks. */
  lemma {:induction false} LackingInOrder(xs: seq<Node>, ys: seq<Node>) returns (at: seq<nat>)
    ensures |at| == |Lacking(xs, ys)|
    ensures forall k :: 0 <= k < |at| ==> at[k] < |xs| && xs[at[k]] == Lacking(xs, ys)[k]
    ensures forall j, k :: 0 <= j < k < |at| ==> at[j] < at[k]
    ensures forall i: nat :: i in at <==> i < |xs| && !HasName(ys, xs[i].name)
  {
    hide HasName;
    at := [];
    if xs != [] {
      var init, last := xs[..|xs| - 1], |xs| - 1;
      var before := LackingInOrder(init, ys);
      at := before + if HasName(ys, xs[last].name) then [] else [last];
      LackingNext(xs, ys, before, at);
    }
  }

  lemma LackingNext(xs: seq<Node>, ys: seq<Node>, before: seq<nat>, at: seq<nat>)
    requires xs != [] && at == before + if HasName(ys, xs[|xs| - 1].name) then [] else [|xs| - 1]
    requires |before| == |Lacking(xs[..|xs| - 1], ys)|
    requires forall k :: 0 <= k < |before| ==> before[k] < |xs| - 1 && xs[before[k]] == Lacking(xs[..|xs| - 1], ys)[k]
    requires forall i: nat :: i in before <==> i < |xs| - 1 && !HasName(ys, xs[i].name)
    ensures |at| == |Lacking(xs, ys)|
    ensures forall k :: 0 <= k < |at| ==> at[k] < |xs| && xs[at[k]] == Lacking(xs, ys)[k]
    ensures forall i: nat :: i in at <==> i < |xs| && !HasName(ys, xs[i].name)
  {
    hide HasName;
    var last, kept := |xs| - 1, Lacking(xs[..|xs| - 1], ys);
    var grown := Lacking(xs, ys);
    assert grown == kept + if HasName(ys, xs[last].name) then [] else [xs[last]];
    hide Lacking;
    forall i: nat ensures i in at <==> i in before || (i == last && !HasName(ys, xs[last].name)) {}
    forall k | 0 <= k < |at| ensures at[k] < |xs| && xs[at[k]] == grown[k] {
      if k < |before| { assert at[k] == before[k] && grown[k] == kept[k]; }
    }
  }

  /** Nothing is lacking on either side of a list that has every name of the other. */
  lemma {:induction false} LackingNone(xs: seq<Node>, ys: seq<Node>)
    requires forall n :: n in xs ==> HasName(ys, n.name)
    ensures Lacking(xs, ys) == []
  {
    hide HasName;
    if xs != [] {
      assert xs == xs[..|xs| - 1] + [xs[|xs| - 1]];
      LackingNone(xs[..|xs| - 1], ys);
    }
  }

  lemma {:induction false} LackingAppend(xs: seq<Node>, more: seq<Node>, ys: seq<Node>)
    requires forall n :: n in more ==> HasName(ys, n.name)
    ensures Lacking(xs + more, ys) == Lacking(xs, ys)
    decreases |more|
  {
    hide HasName;
    if more == [] {
      assert xs + more == xs;
    } else {
      var init, x := more[..|more| - 1], more[|more| - 1];
      assert (xs + more)[..|xs + more| - 1] == xs + init;
      LackingAppend(xs, init, ys);
    }
  }

  lemma HasNameIn(nodes: seq<Node>, n: Node)
    requires n in nodes
    ensures HasName(nodes, n.name)
  {
    var i :| 0 <= i < |nodes| && nodes[i] == n;
  }

  lemma HasNameAppend(a: seq<Node>, b: seq<Node>, name: string)
    ensures HasName(a + b, name) <==> HasName(a, name) || HasName(b, name)
  {
    if i :| 0 <= i < |a| && a[i].name == name { assert (a + b)[i].name == name; }
    if i :| 0 <= i < |b| && b[i].name == name { assert (a + b)[|a| + i].name == name; }
  }

  /** Appending nodes of other names does not change which node has a name last. */
  lemma {:induction false} LastNamedAppend(nodes: seq<Node>, more: seq<Node>, name: string)
    ensures !HasName(more, name) ==> LastNamed(nodes + more, name) == LastNamed(nodes, name)
    ensures HasName(more, name) ==> LastNamed(nodes + more, name) == LastNamed(more, name)
    decreases |more|
  {
    if more == [] {
      assert nodes + more == nodes;
    } else {
      var init, x := more[..|more| - 1], more[|more| - 1];
      assert (nodes + more)[..|nodes + more| - 1] == nodes + init;
      assert more == init + [x];
      HasNameAppend(init, [x], name);
      LastNamedAppend(nodes, init, name);
      assert HasName([x], name) <==> x.name == name by { if x.name == name { assert [x][0].name == name; } }
    }
  }

  lemma UniqueNode(nodes: seq<Node>, a: Node, b: Node)
    requires UniqueNames(nodes) && a in nodes && b in nodes && a.name == b.name
    ensures a == b
  {
    var i :| 0 <= i < |nodes| && nodes[i] == a;
    var j :| 0 <= j < |nodes| && nodes[j] == b;
  }

  /** What LoadInventory guarantees of the hosts side. */
  ghost predicate WellMade(base: seq<Node>)
  {
    UniqueNames(base) && forall i :: 0 <= i < |base| ==> base[i].port != 0 && base[i].user != ""
  }

  /** A node that the inventory lacked is overlaid by its own copy once it is added. */
  lemma OverlaidStays(base: seq<Node>, overlay: seq<Node>, n: Node)
    requires WellMade(base) && n in base
    ensures Overlaid(n, overlay + Lacking(base, overlay)) == Overlaid(n, overlay)
  {
    var added := Lacking(base, overlay);
    LackingIs(base, overlay);
    LastNamedAppend(overlay, added, n.name);
    hide Lacking;
    if HasName(added, n.name) {
      var m := LastNamed(added, n.name).value;
      assert m in added && m.name == n.name;
      UniqueNode(base, m, n);
      assert n.port != 0 && n.user != "";
    } else if !HasName(overlay, n.name) {
      assert n in added;
      HasNameIn(added, n);
    }
  }

  /** Inventory sync is a fixpoint: after the added nodes are appended to the inventory
      file, merging the same hosts again gives the same merged and missing lists and
      nothing more to add. */
  lemma SyncIsFixpoint(base: seq<Node>, overlay: seq<Node>)
    requires WellMade(base)
    ensures var overlay' := overlay + Lacking(base, overlay);
            && OverlaidAll(base, overlay') == OverlaidAll(base, overlay)
            && Lacking(base, overlay') == []
            && Lacking(overlay', base) == Lacking(overlay, base)
  {
    var added := Lacking(base, overlay);
    LackingIs(base, overlay);
    hide Lacking, HasName, Overlaid;
    forall i | 0 <= i < |base| ensures Overlaid(base[i], overlay + added) == Overlaid(base[i], overlay) {
      OverlaidStays(base, overlay, base[i]);
    }
    forall n | n in base ensures HasName(overlay + added, n.name) {
      HasNameAppend(overlay, added, n.name);
      if !HasName(overlay, n.name) { HasNameIn(added, n); }
    }
    LackingNone(base, overlay + added);
    forall n | n in added ensures HasName(base, n.name) { HasNameIn(base, n); }
    LackingAppend(overlay, added, base);
  }

  /** The merged list: the hosts nodes in order, each with its own name and IP, then the
      inventory nodes they lack. Its names are those of both sources. */
  lemma MergedNodes(base: seq<Node>, overlay: seq<Node>)
    ensures var merged := OverlaidAll(base, overlay) + Lacking(overlay, base);
            && |merged| == |base| + |Lacking(overlay, base)|
            && (forall i :: 0 <= i < |base| ==> merged[i].name == base[i].name && merged[i].host == base[i].host)
            && (forall s :: HasName(merged, s) <==> HasName(base, s) || HasName(overlay, s))
  {
    var front, rest := OverlaidAll(base, overlay), Lacking(overlay, base);
    var merged := front + rest;
    LackingIs(overlay, base);
    forall s ensures HasName(merged, s) <==> HasName(base, s) || HasName(overlay, s) {
      HasNameAppend(front, rest, s);
      assert HasName(front, s) <==> HasName(base, s) by {
        if i :| 0 <= i < |base| && base[i].name == s { assert front[i].name == s; }
      }
      if HasName(rest, s) {
        var i :| 0 <= i < |rest| && rest[i].name == s;
        HasNameIn(overlay, rest[i]);
      }
      if HasName(overlay, s) && !HasName(base, s) {
        var n := LastNamed(overlay, s).value;
        HasNameIn(rest, n);
      }
    }
  }

  /** Which source wins, field by field: the hosts file for name and IP, the last inventory
      entry of that name for groups, and for port and user unless it leaves them empty. */
  lemma MergedFields(base: seq<Node>, overlay: seq<Node>, i: nat, k: nat)
    requires i < |base| && k < |overlay| && overlay[k].name == base[i].name
    requires forall j :: k < j < |overlay| ==> overlay[j].name != base[i].name
    ensures var m, ov := OverlaidAll(base, overlay)[i], overlay[k];
            && m.name == base[i].name && m.host == base[i].host && m.groups == ov.groups
            && (m.port == ov.port || (ov.port == 0 && m.port == base[i].port))
            && (m.user == ov.user || (ov.user == "" && m.user == base[i].user))
            && (base[i].port != 0 ==> m.port != 0) && (base[i].user != "" ==> m.user != "")
  {
    LastNamedAt(overlay, base[i].name, k);
  }

  lemma {:induction false} LastNamedAt(nodes: seq<Node>, name: string, k: nat)
    requires k < |nodes| && nodes[k].name == name && forall j :: k < j < |nodes| ==> nodes[j].name != name
    ensures LastNamed(nodes, name) == Some(nodes[k])
  {
    if k < |nodes| - 1 {
      LastNamedAt(nodes[..|nodes| - 1], name, k);
    }
  }

  /** A hosts node the inventory does not know keeps its own fields. */
  lemma NewNodesAreKept(base: seq<Node>, overlay: seq<Node>, i: nat)
    requires i < |base| && !HasName(overlay, base[i].name)
    ensures OverlaidAll(base, overlay)[i] == base[i] && base[i] in Lacking(base, overlay)
  {
    LackingIs(base, overlay);
    assert base[i] in base;
  }
}
