/** internal/inventory/inventory.go: Select. Tokens are tried as group names first, then
    as node names; a name is taken once, at the first token that matches its node. */
module Selection {
  import opened Wrappers
  import opened Inventory

  ghost predicate GroupExists(nodes: seq<Node>, token: string)
  {
    exists m :: 0 <= m < |nodes| && token in nodes[m].groups
  }

  /** Node `m` matches the token: as a member when some group has that name, else by name. */
  ghost predicate Matches(nodes: seq<Node>, token: string, m: nat)
  {
    m < |nodes| && if GroupExists(nodes, token) then token in nodes[m].groups else nodes[m].name == token
  }

  /** The first token that node `m` matches; their number if there is none. */
  ghost function FirstMatch(nodes: seq<Node>, tokens: seq<string>, m: nat): (t: nat)
    ensures t <= |tokens|
    ensures t < |tokens| ==> Matches(nodes, tokens[t], m)
    ensures forall u :: 0 <= u < t ==> !Matches(nodes, tokens[u], m)
  {
    if tokens == [] then 0
    else
      var init := tokens[..|tokens| - 1];
      var t := FirstMatch(nodes, init, m);
      assert forall u :: 0 <= u < |init| ==> tokens[u] == init[u];
      if t < |init| then t
      else if Matches(nodes, tokens[|tokens| - 1], m) then |tokens| - 1 else |tokens|
  }

  ghost predicate NameTaken(nodes: seq<Node>, picks: seq<nat>, name: string)
  {
    exists x :: 0 <= x < |picks| && picks[x] < |nodes| && nodes[picks[x]].name == name
  }

  /** Node `m` comes before the point "token t, node q" of the scan. */
  ghost predicate Reached(nodes: seq<Node>, tokens: seq<string>, m: nat, t: nat, q: nat)
  {
    m < |nodes| && (FirstMatch(nodes, tokens, m) < t || (FirstMatch(nodes, tokens, m) == t && m < q))
  }

  /** The positions picked when the scan has reached token `t`, node `q`: distinct names,
      ordered by first matching token and then by position, and every reached name is there. */
  ghost predicate Scanned(nodes: seq<Node>, tokens: seq<string>, picks: seq<nat>, t: nat, q: nat)
  {
    && (forall x :: 0 <= x < |picks| ==> Reached(nodes, tokens, picks[x], t, q))
    && (forall x, y :: 0 <= x < y < |picks| ==> nodes[picks[x]].name != nodes[picks[y]].name)
    && (forall x, y :: 0 <= x < y < |picks| ==>
          Reached(nodes, tokens, picks[x], FirstMatch(nodes, tokens, picks[y]), picks[y]))
    && (forall m :: 0 <= m < |nodes| && Reached(nodes, tokens, m, t, q) ==> NameTaken(nodes, picks, nodes[m].name))
  }

  /** A node that does not match token `t` changes nothing. */
  lemma SkipNode(nodes: seq<Node>, tokens: seq<string>, picks: seq<nat>, t: nat, q: nat)
    requires Scanned(nodes, tokens, picks, t, q) && t < |tokens| && q < |nodes|
    requires !Matches(nodes, tokens[t], q) || NameTaken(nodes, picks, nodes[q].name)
    ensures Scanned(nodes, tokens, picks, t, q + 1)
  {
    hide Matches, NameTaken;
    forall m | 0 <= m < |nodes| && Reached(nodes, tokens, m, t, q + 1) ensures NameTaken(nodes, picks, nodes[m].name) {
      assert m == q || Reached(nodes, tokens, m, t, q);
    }
  }

  lemma PickNode(nodes: seq<Node>, tokens: seq<string>, picks: seq<nat>, t: nat, q: nat)
    requires Scanned(nodes, tokens, picks, t, q) && t < |tokens| && q < |nodes|
    requires Matches(nodes, tokens[t], q) && !NameTaken(nodes, picks, nodes[q].name)
    ensures Scanned(nodes, tokens, picks + [q], t, q + 1)
  {
    var longer := picks + [q];
    assert !Reached(nodes, tokens, q, t, q);
    assert FirstMatch(nodes, tokens, q) == t;
    forall m | 0 <= m < |nodes| && Reached(nodes, tokens, m, t, q + 1) ensures NameTaken(nodes, longer, nodes[m].name) {
      TakenGrows(nodes, picks, q, nodes[m].name);
      assert m == q || Reached(nodes, tokens, m, t, q);
    }
    forall x | 0 <= x < |picks| ensures nodes[picks[x]].name != nodes[q].name {
      assert Reached(nodes, tokens, picks[x], t, q);
    }
  }

  lemma TakenGrows(nodes: seq<Node>, picks: seq<nat>, q: nat, name: string)
    requires q < |nodes|
    ensures NameTaken(nodes, picks + [q], name) <==> NameTaken(nodes, picks, name) || nodes[q].name == name
  {
    var longer := picks + [q];
    assert longer[|picks|] == q;
    if x :| 0 <= x < |picks| && picks[x] < |nodes| && nodes[picks[x]].name == name { assert longer[x] == picks[x]; }
  }

  lemma NextToken(nodes: seq<Node>, tokens: seq<string>, picks: seq<nat>, t: nat)
    requires Scanned(nodes, tokens, picks, t, |nodes|) && t < |tokens|
    ensures Scanned(nodes, tokens, picks, t + 1, 0)
  {
    forall m | 0 <= m < |nodes|
      ensures Reached(nodes, tokens, m, t + 1, 0) <==> Reached(nodes, tokens, m, t, |nodes|) {}
  }

  /** The loop that collects the members of a group. */
  method GroupMembers(nodes: seq<Node>, token: string) returns (members: seq<bool>, any: bool)
    ensures |members| == |nodes| && forall m :: 0 <= m < |nodes| ==> members[m] == (token in nodes[m].groups)
    ensures any <==> GroupExists(nodes, token)
  {
    members, any := [], false;
    for m := 0 to |nodes|
      invariant |members| == m && forall j :: 0 <= j < m ==> members[j] == (token in nodes[j].groups)
      invariant any <==> exists j :: 0 <= j < m && token in nodes[j].groups
    {
      members := members + [token in nodes[m].groups];
      any := any || token in nodes[m].groups;
    }
  }

  /** The scan of one token: the group if there is one, the nodes of that name otherwise.
      The source copies group members into a slice first; here positions stand for nodes. */
  method ScanToken(nodes: seq<Node>, tokens: seq<string>, t: nat, picks0: seq<nat>, seen0: set<string>)
    returns (picks: seq<nat>, seen: set<string>)
    requires t < |tokens| && Scanned(nodes, tokens, picks0, t, 0)
    requires forall s :: s in seen0 <==> NameTaken(nodes, picks0, s)
    ensures Scanned(nodes, tokens, picks, t + 1, 0)
    ensures forall s :: s in seen <==> NameTaken(nodes, picks, s)
  {
    picks, seen := picks0, seen0;
    var token := tokens[t];
    var members, any := GroupMembers(nodes, token);
    for q := 0 to |nodes|
      invariant Scanned(nodes, tokens, picks, t, q)
      invariant forall s :: s in seen <==> NameTaken(nodes, picks, s)
    {
      var matches := if any then members[q] else nodes[q].name == token;
      assert matches <==> Matches(nodes, token, q);
      hide Scanned, NameTaken, Matches, GroupExists, FirstMatch;
      if matches && nodes[q].name !in seen {
        PickNode(nodes, tokens, picks, t, q);
        forall s ensures NameTaken(nodes, picks + [q], s) <==> NameTaken(nodes, picks, s) || s == nodes[q].name {
          TakenGrows(nodes, picks, q, s);
        }
        seen := seen + {nodes[q].name};
        picks := picks + [q];
      } else {
        SkipNode(nodes, tokens, picks, t, q);
      }
    }
    NextToken(nodes, tokens, picks, t);
  }

  /** Crash: expanding a range with an end beyond an int panics or does not return. */
  datatype Selected = Nodes(nodes: seq<Node>) | NoMatch | Crash

  /** The names an exclude argument removes. */
  function ExcludedNames(exclude: string): seq<string>
  {
    if exclude == "" then [] else ListNames(exclude)
  }

  function AllPositions(k: nat): (r: seq<nat>)
    ensures |r| == k && forall i :: 0 <= i < k ==> r[i] == i
  {
    if k == 0 then [] else AllPositions(k - 1) + [k - 1]
  }

  /** The candidates before exclusion, as positions. */
  ghost predicate Candidates(nodes: seq<Node>, selector: string, picks: seq<nat>)
  {
    if selector == "all" then picks == AllPositions(|nodes|)
    else Scanned(nodes, ListNames(selector), picks, |ListNames(selector)|, 0)
  }

  /** `r` is the candidates without the excluded names, in the same order. */
  ghost function Kept(nodes: seq<Node>, picks: seq<nat>, excluded: seq<string>): seq<Node>
    requires forall x :: 0 <= x < |picks| ==> picks[x] < |nodes|
  {
    if picks == [] then []
    else
      var n := nodes[picks[|picks| - 1]];
      Kept(nodes, picks[..|picks| - 1], excluded) + if n.name in excluded then [] else [n]
  }

  /** The name was asked for and not excluded. */
  ghost predicate Chosen(nodes: seq<Node>, selector: string, exclude: string, name: string)
  {
    && !(exclude != "" && name in ListNames(exclude))
    && if selector == "all" then HasName(nodes, name) else NameMatches(nodes, ListNames(selector), name)
  }

  /** Select. An error exactly when no name is chosen; otherwise exactly the chosen names,
      each once unless everything was asked for. `picks` witnesses the order. */
  method Select(nodes: seq<Node>, selector: string, exclude: string) returns (r: Selected, ghost picks: seq<nat>)
    ensures r.Crash? <==> (exclude != "" && !ListFits(exclude)) || (selector != "all" && !ListFits(selector))
    ensures !r.Crash? ==> Candidates(nodes, selector, picks) && forall x :: 0 <= x < |picks| ==> picks[x] < |nodes|
    ensures !r.Crash? ==> r == var kept := Kept(nodes, picks, ExcludedNames(exclude));
              if kept == [] then NoMatch else Nodes(kept)
    ensures !r.Crash? ==> (r.NoMatch? <==> forall s :: !Chosen(nodes, selector, exclude, s))
    ensures r.Nodes? ==> forall s :: HasName(r.nodes, s) <==> Chosen(nodes, selector, exclude, s)
    ensures r.Nodes? && selector != "all" ==> UniqueNames(r.nodes)
    // The same for the plain uses: a node name, a group name, everything, one excluded name.
    ensures !r.Crash? && selector != "all" && Simple(selector) && !IsGroup(nodes, selector) ==>
              forall s :: (r.Nodes? && HasName(r.nodes, s)) <==>
                s == selector && IsNode(nodes, s) && !IsExcluded(exclude, s)
    ensures !r.Crash? && selector != "all" && Simple(selector) && IsGroup(nodes, selector) ==>
              forall s :: (r.Nodes? && HasName(r.nodes, s)) <==>
                IsMember(nodes, selector, s) && !IsExcluded(exclude, s)
    ensures !r.Crash? && selector == "all" ==>
              forall s :: (r.Nodes? && HasName(r.nodes, s)) <==> IsNode(nodes, s) && !IsExcluded(exclude, s)
    ensures r.Nodes? && exclude != "" && Simple(exclude) ==> !HasName(r.nodes, exclude)
  {
    r, picks := SelectNodes(nodes, selector, exclude);
    if !r.Crash? {
      forall s
        ensures selector == "all" ==>
                  ((r.Nodes? && HasName(r.nodes, s)) <==> IsNode(nodes, s) && !IsExcluded(exclude, s))
        ensures selector != "all" && Simple(selector) ==>
                  ((r.Nodes? && HasName(r.nodes, s)) <==>
                    && !IsExcluded(exclude, s)
                    && if IsGroup(nodes, selector) then IsMember(nodes, selector, s)
                       else s == selector && IsNode(nodes, s))
      {
        assert (r.Nodes? && HasName(r.nodes, s)) <==> Chosen(nodes, selector, exclude, s);
        PlainUse(nodes, selector, exclude, s);
      }
      hide Chosen, HasName, ListNames, Simple, Candidates, Kept, UniqueNames, ListFits;
      hide IsNode, IsGroup, IsMember, IsExcluded;
      if exclude != "" && Simple(exclude) { SimpleExclude(nodes, selector, exclude); }
    }
  }

  /** Some node has the name; some node has the group; some member of the group has the name. */
  ghost predicate IsNode(nodes: seq<Node>, name: string)
  {
    exists m :: 0 <= m < |nodes| && nodes[m].name == name
  }

  ghost predicate IsGroup(nodes: seq<Node>, group: string)
  {
    exists m, g :: 0 <= m < |nodes| && 0 <= g < |nodes[m].groups| && nodes[m].groups[g] == group
  }

  ghost predicate IsMember(nodes: seq<Node>, group: string, name: string)
  {
    exists m, g :: 0 <= m < |nodes| && 0 <= g < |nodes[m].groups|
                   && nodes[m].groups[g] == group && nodes[m].name == name
  }

  /** The exclude argument names it; an empty one names nothing. */
  predicate IsExcluded(exclude: string, name: string)
  {
    exclude != "" && name in ListNames(exclude)
  }

  lemma PlainUse(nodes: seq<Node>, selector: string, exclude: string, s: string)
    ensures selector == "all" ==> (Chosen(nodes, selector, exclude, s) <==> IsNode(nodes, s) && !IsExcluded(exclude, s))
    ensures selector != "all" && Simple(selector) ==>
              (Chosen(nodes, selector, exclude, s) <==>
                (if IsGroup(nodes, selector) then IsMember(nodes, selector, s) else s == selector && IsNode(nodes, s))
                && !IsExcluded(exclude, s))
  {
    hide ListNames, Simple;
    if selector != "all" && Simple(selector) {
      SimpleList(selector);
      OneToken(nodes, selector, s);
    }
  }

  lemma SimpleExclude(nodes: seq<Node>, selector: string, exclude: string)
    requires exclude != "" && Simple(exclude)
    ensures !Chosen(nodes, selector, exclude, exclude)
  {
    SimpleList(exclude);
  }

  lemma GroupsByIndex(nodes: seq<Node>, token: string)
    ensures GroupExists(nodes, token) <==> IsGroup(nodes, token)
  {
    if m :| 0 <= m < |nodes| && token in nodes[m].groups {
      var g :| 0 <= g < |nodes[m].groups| && nodes[m].groups[g] == token;
    }
    if m, g :| 0 <= m < |nodes| && 0 <= g < |nodes[m].groups| && nodes[m].groups[g] == token {
      assert token in nodes[m].groups;
    }
  }

  lemma OneToken(nodes: seq<Node>, token: string, s: string)
    ensures NameMatches(nodes, [token], s) <==>
            if IsGroup(nodes, token) then IsMember(nodes, token, s) else s == token && IsNode(nodes, s)
  {
    GroupsByIndex(nodes, token);
    hide GroupExists, IsGroup;
    var tokens := [token];
    if NameMatches(nodes, tokens, s) {
      var m, t :| 0 <= m < |nodes| && 0 <= t < |tokens| && nodes[m].name == s && Matches(nodes, tokens[t], m);
      assert tokens[t] == token;
      if IsGroup(nodes, token) {
        var g :| 0 <= g < |nodes[m].groups| && nodes[m].groups[g] == token;
      }
    }
    if IsGroup(nodes, token) && IsMember(nodes, token, s) {
      var m, g :| 0 <= m < |nodes| && 0 <= g < |nodes[m].groups| && nodes[m].groups[g] == token && nodes[m].name == s;
      assert Matches(nodes, tokens[0], m);
    }
    if !IsGroup(nodes, token) && s == token && IsNode(nodes, s) {
      var m :| 0 <= m < |nodes| && nodes[m].name == s;
      assert Matches(nodes, tokens[0], m);
    }
  }

  /** The body of Select. */
  method SelectNodes(nodes: seq<Node>, selector: string, exclude: string) returns (r: Selected, ghost picks: seq<nat>)
    ensures r.Crash? <==> (exclude != "" && !ListFits(exclude)) || (selector != "all" && !ListFits(selector))
    ensures !r.Crash? ==> Candidates(nodes, selector, picks) && forall x :: 0 <= x < |picks| ==> picks[x] < |nodes|
    ensures !r.Crash? ==> r == var kept := Kept(nodes, picks, ExcludedNames(exclude));
              if kept == [] then NoMatch else Nodes(kept)
    ensures !r.Crash? ==> (r.NoMatch? <==> forall s :: !Chosen(nodes, selector, exclude, s))
    ensures r.Nodes? ==> forall s :: HasName(r.nodes, s) <==> Chosen(nodes, selector, exclude, s)
    ensures r.Nodes? && selector != "all" ==> UniqueNames(r.nodes)
  {
    picks := [];
    var excludeSet := ExcludeSet(exclude);
    if excludeSet.None? {
      return Crash, picks;
    }
    var candidates := [];
    if selector == "all" {
      candidates := AllPositions(|nodes|);
    } else {
      var scanned := ScanAll(nodes, selector);
      if scanned.None? {
        return Crash, picks;
      }
      candidates := scanned.value;
    }
    picks := candidates;
    var result := ApplyExclusions(nodes, candidates, excludeSet.value, ExcludedNames(exclude));
    KeptIsChosen(nodes, selector, exclude, picks);
    hide Candidates, Kept, Chosen, HasName, UniqueNames;
    r := if |result| == 0 then NoMatch else Nodes(result);
  }

  /** The loop that applies the exclusions. */
  method ApplyExclusions(nodes: seq<Node>, candidates: seq<nat>, excludeSet: set<string>, ghost excluded: seq<string>)
    returns (result: seq<Node>)
    requires forall x :: 0 <= x < |candidates| ==> candidates[x] < |nodes|
    requires forall s :: s in excludeSet <==> s in excluded
    ensures result == Kept(nodes, candidates, excluded)
  {
    result := [];
    for x := 0 to |candidates|
      invariant result == Kept(nodes, candidates[..x], excluded)
    {
      assert candidates[..x + 1][..x] == candidates[..x];
      if nodes[candidates[x]].name !in excludeSet {
        result := result + [nodes[candidates[x]]];
      }
    }
    assert candidates[..|candidates|] == candidates;
  }

  /** No exclude argument excludes nothing; otherwise its expanded names. */
  method ExcludeSet(exclude: string) returns (r: Option<set<string>>)
    ensures r.None? <==> exclude != "" && !ListFits(exclude)
    ensures r.Some? ==> forall s :: s in r.value <==> s in ExcludedNames(exclude)
  {
    hide ListNames, ListFits;
    if exclude == "" {
      return Some({});
    }
    var names := ExpandList(exclude);
    if names.None? {
      return None;
    }
    var excludeSet := NameSet(names.value);
    r := Some(excludeSet);
  }

  /** The loop that fills `excludeSet`. */
  method NameSet(names: seq<string>) returns (excludeSet: set<string>)
    ensures forall s :: s in excludeSet <==> s in names
  {
    excludeSet := {};
    for i := 0 to |names|
      invariant forall s :: s in excludeSet <==> s in names[..i]
    {
      assert names[..i + 1] == names[..i] + [names[i]];
      excludeSet := excludeSet + {names[i]};
    }
    assert names[..|names|] == names;
  }

  /** The loop over the tokens of the selector. */
  method ScanAll(nodes: seq<Node>, selector: string) returns (r: Option<seq<nat>>)
    ensures r.None? <==> !ListFits(selector)
    ensures r.Some? ==> Scanned(nodes, ListNames(selector), r.value, |ListNames(selector)|, 0)
    ensures r.Some? ==> forall x :: 0 <= x < |r.value| ==> r.value[x] < |nodes|
  {
    hide ListNames, ListFits;
    var expanded := ExpandList(selector);
    if expanded.None? {
      return None;
    }
    var tokens := expanded.value;
    var picks: seq<nat> := [];
    var seen: set<string> := {};
    for t := 0 to |tokens|
      invariant Scanned(nodes, tokens, picks, t, 0)
      invariant forall s :: s in seen <==> NameTaken(nodes, picks, s)
    {
      hide Scanned, NameTaken;
      picks, seen := ScanToken(nodes, tokens, t, picks, seen);
    }
    r := Some(picks);
  }

  // ---------------------------------------------------------------------------
  // What a selection contains

  ghost predicate NameMatches(nodes: seq<Node>, tokens: seq<string>, name: string)
  {
    exists m, t :: 0 <= m < |nodes| && 0 <= t < |tokens| && nodes[m].name == name && Matches(nodes, tokens[t], m)
  }

  lemma {:induction false} KeptHas(nodes: seq<Node>, picks: seq<nat>, excluded: seq<string>, name: string)
    requires forall x :: 0 <= x < |picks| ==> picks[x] < |nodes|
    ensures HasName(Kept(nodes, picks, excluded), name) <==> NameTaken(nodes, picks, name) && name !in excluded
  {
    if picks != [] {
      var init, q := picks[..|picks| - 1], picks[|picks| - 1];
      KeptHas(nodes, init, excluded, name);
      TakenGrows(nodes, init, q, name);
      assert picks == init + [q];
      HasNameAppend(Kept(nodes, init, excluded), if nodes[q].name in excluded then [] else [nodes[q]], name);
      assert HasName([nodes[q]], name) <==> nodes[q].name == name by {
        if nodes[q].name == name { assert [nodes[q]][0].name == name; }
      }
    }
  }

  /** Selection is exact: a name is in the result exactly when it is not excluded and some
      expanded token is a group containing a node of that name, or no group and that name. */
  lemma SelectionIsExact(nodes: seq<Node>, selector: string, exclude: string, picks: seq<nat>, name: string)
    requires selector != "all" && Candidates(nodes, selector, picks)
    ensures forall x :: 0 <= x < |picks| ==> picks[x] < |nodes|
    ensures HasName(Kept(nodes, picks, ExcludedNames(exclude)), name) <==>
            NameMatches(nodes, ListNames(selector), name) && name !in ExcludedNames(exclude)
  {
    var tokens := ListNames(selector);
    assert forall x :: 0 <= x < |picks| ==> Reached(nodes, tokens, picks[x], |tokens|, 0);
    KeptHas(nodes, picks, ExcludedNames(exclude), name);
    if NameMatches(nodes, tokens, name) {
      var m, t :| 0 <= m < |nodes| && 0 <= t < |tokens| && nodes[m].name == name && Matches(nodes, tokens[t], m);
      assert FirstMatch(nodes, tokens, m) <= t;
      assert Reached(nodes, tokens, m, |tokens|, 0);
    }
    if NameTaken(nodes, picks, name) {
      var x :| 0 <= x < |picks| && picks[x] < |nodes| && nodes[picks[x]].name == name;
      assert Reached(nodes, tokens, picks[x], |tokens|, 0);
      assert Matches(nodes, tokens[FirstMatch(nodes, tokens, picks[x])], picks[x]);
    }
  }

  lemma AllNames(nodes: seq<Node>, name: string)
    ensures NameTaken(nodes, AllPositions(|nodes|), name) <==> HasName(nodes, name)
  {
    var picks := AllPositions(|nodes|);
    if m :| 0 <= m < |nodes| && nodes[m].name == name { assert picks[m] == m; }
  }

  /** What is kept of the candidates: the chosen names; none at all exactly when none is chosen. */
  lemma KeptIsChosen(nodes: seq<Node>, selector: string, exclude: string, picks: seq<nat>)
    requires Candidates(nodes, selector, picks) && forall x :: 0 <= x < |picks| ==> picks[x] < |nodes|
    ensures var kept := Kept(nodes, picks, ExcludedNames(exclude));
            && (forall s :: HasName(kept, s) <==> Chosen(nodes, selector, exclude, s))
            && (kept == [] <==> forall s :: !Chosen(nodes, selector, exclude, s))
            && (selector != "all" ==> UniqueNames(kept))
  {
    var kept := Kept(nodes, picks, ExcludedNames(exclude));
    if selector != "all" { SelectionIsUnique(nodes, picks, ExcludedNames(exclude)); }
    hide Kept, NameMatches, Matches, Scanned, ExcludedNames, ListNames, UniqueNames;
    forall s ensures HasName(kept, s) <==> Chosen(nodes, selector, exclude, s) {
      if selector == "all" {
        AllNames(nodes, s);
        KeptHas(nodes, picks, ExcludedNames(exclude), s);
      } else {
        SelectionIsExact(nodes, selector, exclude, picks, s);
      }
    }
    if kept != [] { HasNameIn(kept, kept[0]); assert Chosen(nodes, selector, exclude, kept[0].name); }
    if s :| Chosen(nodes, selector, exclude, s) { assert HasName(kept, s); }
  }

  /** The result has each name once. */
  lemma {:induction false} SelectionIsUnique(nodes: seq<Node>, picks: seq<nat>, excluded: seq<string>)
    requires forall x :: 0 <= x < |picks| ==> picks[x] < |nodes|
    requires forall x, y :: 0 <= x < y < |picks| ==> nodes[picks[x]].name != nodes[picks[y]].name
    ensures UniqueNames(Kept(nodes, picks, excluded))
  {
    if picks != [] {
      var init, q := picks[..|picks| - 1], picks[|picks| - 1];
      SelectionIsUnique(nodes, init, excluded);
      KeptHas(nodes, init, excluded, nodes[q].name);
      assert !NameTaken(nodes, init, nodes[q].name);
    }
  }

  /** Candidates come in the order of their first matching token, then of the inventory. */
  lemma SelectionOrder(nodes: seq<Node>, selector: string, picks: seq<nat>, x: nat, y: nat)
    requires selector != "all" && Candidates(nodes, selector, picks) && x < y < |picks|
    ensures var tokens := ListNames(selector);
            var f, g := FirstMatch(nodes, tokens, picks[x]), FirstMatch(nodes, tokens, picks[y]);
            f < g || (f == g && picks[x] < picks[y])
  {
    assert Reached(nodes, ListNames(selector), picks[x], FirstMatch(nodes, ListNames(selector), picks[y]), picks[y]);
  }

  /** The result keeps the candidates' order: it is theirs with the excluded ones cut out. */
  lemma {:induction false} KeptIsSubsequence(nodes: seq<Node>, picks: seq<nat>, excluded: seq<string>)
    returns (at: seq<nat>)
    requires forall x :: 0 <= x < |picks| ==> picks[x] < |nodes|
    ensures |at| == |Kept(nodes, picks, excluded)|
    ensures forall k :: 0 <= k < |at| ==> at[k] < |picks| && Kept(nodes, picks, excluded)[k] == nodes[picks[at[k]]]
    ensures forall j, k :: 0 <= j < k < |at| ==> at[j] < at[k]
  {
    if picks == [] {
      at := [];
    } else {
      var before := KeptIsSubsequence(nodes, picks[..|picks| - 1], excluded);
      at := before + if nodes[picks[|picks| - 1]].name in excluded then [] else [|picks| - 1];
      KeptNext(nodes, picks, excluded, before, at);
    }
  }

  lemma KeptNext(nodes: seq<Node>, picks: seq<nat>, excluded: seq<string>, before: seq<nat>, at: seq<nat>)
    requires picks != [] && forall x :: 0 <= x < |picks| ==> picks[x] < |nodes|
    requires at == before + if nodes[picks[|picks| - 1]].name in excluded then [] else [|picks| - 1]
    requires |before| == |Kept(nodes, picks[..|picks| - 1], excluded)|
    requires forall k :: 0 <= k < |before| ==>
               before[k] < |picks| - 1 && Kept(nodes, picks[..|picks| - 1], excluded)[k] == nodes[picks[before[k]]]
    ensures |at| == |Kept(nodes, picks, excluded)|
    ensures forall k :: 0 <= k < |at| ==> at[k] < |picks| && Kept(nodes, picks, excluded)[k] == nodes[picks[at[k]]]
  {
    var last, kept := nodes[picks[|picks| - 1]], Kept(nodes, picks[..|picks| - 1], excluded);
    var grown := Kept(nodes, picks, excluded);
    assert grown == kept + if last.name in excluded then [] else [last];
    hide Kept;
    forall k | 0 <= k < |at| ensures at[k] < |picks| && grown[k] == nodes[picks[at[k]]] {
      if k < |before| { assert at[k] == before[k] && grown[k] == kept[k]; }
    }
  }
}
