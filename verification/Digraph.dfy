/** Directed graphs as adjacency maps, and the depth-first cycle search of
    internal/playbook/playbook.go over any node type. */
module Digraph {

  import opened Wrappers

  type Graph<T> = map<T, seq<T>>

  datatype Mark = InProgress | Visited

  predicate Edge<T(!new)>(g: Graph<T>, u: T, v: T)
  {
    u in g && v in g[u]
  }

  /** Consecutive nodes are joined by edges. */
  ghost predicate IsPath<T(!new)>(g: Graph<T>, p: seq<T>)
  {
    |p| >= 2 ==> Edge(g, p[|p| - 2], p[|p| - 1]) && IsPath(g, p[..|p| - 1])
  }

  ghost predicate IsCycle<T(!new)>(g: Graph<T>, p: seq<T>)
  {
    |p| >= 2 && IsPath(g, p) && p[0] == p[|p| - 1]
  }

  ghost predicate OnCycle<T(!new)>(g: Graph<T>, v: T)
  {
    exists p :: IsCycle(g, p) && p[0] == v
  }

  ghost predicate Cyclic<T(!new)>(g: Graph<T>)
  {
    exists p :: IsCycle(g, p)
  }

  /** `order` lists nodes without repetition, each after everything it depends on. */
  ghost predicate Topological<T(!new)>(g: Graph<T>, order: seq<T>)
  {
    order != [] ==>
      var init, last := order[..|order| - 1], order[|order| - 1];
      Topological(g, init) && last in g && last !in init && forall d :: d in g[last] ==> d in init
  }

  /** A walk of one or more edges from a listed node stays strictly before it. */
  lemma {:induction false} PathsDescend<T(!new)>(g: Graph<T>, order: seq<T>, p: seq<T>)
    requires Topological(g, order) && order != []
    requires |p| >= 2 && IsPath(g, p) && p[0] == order[|order| - 1]
    ensures p[|p| - 1] in order[..|order| - 1]
    decreases |order|
  {
    var init := order[..|order| - 1];
    Suffix(g, p, 0);
    if |p| > 2 {
      Suffix(g, p, 1);
      var j := Cut(g, init, p[1]);
      PathsDescend(g, init[..j + 1], p[1..]);
      assert init[..j + 1][..j] == init[..j];
    }
  }

  /** A suffix of a path is a path, and a path starts with an edge. */
  lemma {:induction false} Suffix<T(!new)>(g: Graph<T>, p: seq<T>, i: nat)
    requires IsPath(g, p) && i < |p|
    ensures IsPath(g, p[i..])
    ensures i < |p| - 1 ==> Edge(g, p[i], p[i + 1])
  {
    var init := p[..|p| - 1];
    if i < |p| - 1 {
      Suffix(g, init, i);
      assert p[i..][..|p| - i - 1] == init[i..];
      assert i < |p| - 2 ==> init[i + 1] == p[i + 1];
    }
  }

  /** The prefix that ends in a listed node is topological as well. */
  lemma {:induction false} Cut<T(!new)>(g: Graph<T>, order: seq<T>, u: T) returns (j: nat)
    requires Topological(g, order) && u in order
    ensures j < |order| && order[j] == u && Topological(g, order[..j + 1])
  {
    var n := |order| - 1;
    if order[n] == u {
      j := n;
      assert order[..n + 1] == order;
    } else {
      j := Cut(g, order[..n], u);
      assert order[..n][..j + 1] == order[..j + 1];
    }
  }

  /** A topological order of every node rules out cycles. */
  lemma TopologicalIsAcyclic<T(!new)>(g: Graph<T>, order: seq<T>)
    requires Topological(g, order) && forall u :: u in g ==> u in order
    ensures !Cyclic(g)
  {
    if p :| IsCycle(g, p) {
      Suffix(g, p, 0);
      var k := Cut(g, order, p[0]);
      PathsDescend(g, order[..k + 1], p);
    }
  }

  /** A walk that never leaves `rest`, where every node depends on another of them, comes back
      to a node it has seen. */
  lemma {:induction false} WalkClosesCycle<T(!new)>(g: Graph<T>, rest: set<T>, path: seq<T>)
    requires forall u :: u in rest ==> HasSuccessor(g, rest, u)
    requires path != [] && IsPath(g, path) && forall i :: 0 <= i < |path| ==> path[i] in rest
    ensures Cyclic(g)
    decreases rest - Elements(path)
  {
    assert HasSuccessor(g, rest, path[|path| - 1]);
    var v :| v in rest && Edge(g, path[|path| - 1], v);
    if v in path {
      BackToPath(g, path, v);
    } else {
      var longer := path + [v];
      assert longer[..|longer| - 1] == path;
      assert Elements(longer) == Elements(path) + {v} && v !in Elements(path);
      hide IsPath, HasSuccessor, Cyclic, Elements;
      WalkClosesCycle(g, rest, longer);
    }
  }

  lemma BackToPath<T(!new)>(g: Graph<T>, path: seq<T>, v: T)
    requires path != [] && IsPath(g, path) && Edge(g, path[|path| - 1], v) && v in path
    ensures Cyclic(g)
  {
    var i :| 0 <= i < |path| && path[i] == v;
    ClosePath(g, path, i);
    assert OnCycle(g, v);
    hide IsPath;
  }

  ghost predicate HasSuccessor<T(!new)>(g: Graph<T>, rest: set<T>, u: T)
  {
    exists v :: v in rest && Edge(g, u, v)
  }

  function Elements<T(!new)>(path: seq<T>): set<T>
  {
    set x | x in path
  }

  /** Without cycles a topological order goes on until it lists every node. */
  lemma {:induction false} OrderGoesOn<T(!new)>(g: Graph<T>, order: seq<T>) returns (full: seq<T>)
    requires (forall u, v :: Edge(g, u, v) ==> v in g) && !Cyclic(g)
    requires Topological(g, order) && Elements(order) <= g.Keys
    ensures Topological(g, full) && forall u :: u in full <==> u in g
    decreases g.Keys - Elements(order)
  {
    var rest := g.Keys - Elements(order);
    if rest == {} {
      full := order;
      forall u ensures u in order <==> u in g {
        assert u in rest <==> u in g && u !in order;
        assert u in order ==> u in Elements(order);
      }
    } else if forall u :: u in rest ==> HasSuccessor(g, rest, u) {
      var u :| u in rest;
      WalkClosesCycle(g, rest, [u]);
    } else {
      var u :| u in rest && !HasSuccessor(g, rest, u);
      NextInOrder(g, order, u);
      assert Elements(order + [u]) == Elements(order) + {u};
      hide Topological, Cyclic, HasSuccessor, Elements;
      full := OrderGoesOn(g, order + [u]);
    }
  }

  lemma NextInOrder<T(!new)>(g: Graph<T>, order: seq<T>, u: T)
    requires (forall x, v :: Edge(g, x, v) ==> v in g) && Topological(g, order)
    requires u in g && u !in order && !HasSuccessor(g, g.Keys - Elements(order), u)
    ensures Topological(g, order + [u])
  {
    var longer := order + [u];
    assert longer[..|longer| - 1] == order;
    forall d | d in g[u] ensures d in order { assert Edge(g, u, d); }
  }

  /** A graph whose edges stay inside has no cycle exactly when it has a topological order. */
  lemma AcyclicWhenOrdered<T(!new)>(g: Graph<T>)
    requires forall u, v :: Edge(g, u, v) ==> v in g
    ensures !Cyclic(g) <==> exists order :: Topological(g, order) && forall u :: u in order <==> u in g
  {
    if !Cyclic(g) {
      var order := OrderGoesOn(g, []);
    }
    if order :| Topological(g, order) && forall u :: u in order <==> u in g {
      TopologicalIsAcyclic(g, order);
    }
  }

  /** Each listed node is new at its place and depends on nodes before it. */
  lemma {:induction false} PlaceInOrder<T(!new)>(g: Graph<T>, order: seq<T>, i: nat)
    requires Topological(g, order) && i < |order|
    ensures order[i] in g && order[i] !in order[..i] && forall d :: d in g[order[i]] ==> d in order[..i]
  {
    if i < |order| - 1 {
      var init := order[..|order| - 1];
      PlaceInOrder(g, init, i);
      assert init[..i] == order[..i] && init[i] == order[i];
    }
  }

  /** In-progress names are exactly the current path; visited names are closed
      under dependencies and `finished` lists them in topological order. */
  ghost predicate Sound<T(!new)>(g: Graph<T>, marks: map<T, Mark>, finished: seq<T>, path: seq<T>)
  {
    && marks.Keys <= g.Keys
    && (forall u :: u in path <==> u in marks && marks[u].InProgress?)
    && IsPath(g, path)
    && Topological(g, finished)
    && (forall u :: u in finished <==> u in marks && marks[u].Visited?)
  }

  /** The names whose search has ended. */
  function VisitedIn<T(!new)>(marks: map<T, Mark>): set<T>
  {
    set u | u in marks && marks[u].Visited?
  }

  lemma Enter<T(!new)>(g: Graph<T>, marks: map<T, Mark>, finished: seq<T>, path: seq<T>, name: T)
    requires Sound(g, marks, finished, path) && name in g && name !in marks
    requires path != [] ==> Edge(g, path[|path| - 1], name)
    ensures Sound(g, marks[name := InProgress], finished, path + [name])
    ensures name !in path && VisitedIn(marks[name := InProgress]) == VisitedIn(marks)
    ensures marks[name := InProgress].Keys == marks.Keys + {name} <= g.Keys
  {
    var path' := path + [name];
    assert path'[..|path|] == path;
    forall u ensures u in path' <==> u in path || u == name {}
  }

  lemma Leave<T(!new)>(g: Graph<T>, marks: map<T, Mark>, finished: seq<T>, path: seq<T>, name: T)
    requires Sound(g, marks, finished, path + [name]) && name !in path && name in g
    requires Within(g[name], |g[name]|, VisitedIn(marks))
    ensures Sound(g, marks[name := Visited], finished + [name], path)
    ensures VisitedIn(marks[name := Visited]) == VisitedIn(marks) + {name}
    ensures marks[name := Visited].Keys == marks.Keys
  {
    var path' := path + [name];
    forall u ensures u in path' <==> u in path || u == name {}
    assert name in path';
    assert (finished + [name])[..|finished|] == finished;
    assert path'[..|path|] == path;
    forall u ensures u in finished + [name] <==> u in finished || u == name {}
  }

  ghost predicate Within<T(!new)>(ds: seq<T>, k: nat, s: set<T>)
  {
    k <= |ds| && forall m :: 0 <= m < k ==> ds[m] in s
  }

  lemma OneMore<T(!new)>(ds: seq<T>, k: nat, s: set<T>, t: set<T>)
    requires k < |ds| && Within(ds, k, s) && s <= t && ds[k] in t
    ensures Within(ds, k + 1, t)
  {
  }

  /** The closure `dfs` with the maps it captures. A name absent from `marks` is unvisited. */
  class CycleCheck<T(!new, ==)> {
    const deps: Graph<T>
    var marks: map<T, Mark>
    ghost var finished: seq<T>

    ghost predicate Valid(path: seq<T>)
      reads this
    {
      Sound(deps, marks, finished, path)
    }

    ghost function Done(): set<T>
      reads this
    {
      VisitedIn(marks)
    }

    constructor (deps: Graph<T>)
      ensures this.deps == deps && Valid([]) && marks == map[]
    {
      this.deps := deps;
      this.marks := map[];
      this.finished := [];
    }

    /** Ends with `name` visited and the path as it was, or with a name on a cycle.
        The count of unvisited names bounds the recursion. */
    method Dfs(name: T, ghost path: seq<T>) returns (culprit: Option<T>)
      requires Valid(path) && name in deps
      requires forall u, v :: Edge(deps, u, v) ==> v in deps
      requires path != [] ==> Edge(deps, path[|path| - 1], name)
      modifies this
      ensures culprit.Some? ==> OnCycle(deps, culprit.value)
      ensures culprit.None? ==> Valid(path) && name in Done()
      ensures culprit.None? ==> old(Done()) <= Done()
      ensures old(marks.Keys) <= marks.Keys <= deps.Keys
      decreases |deps.Keys - marks.Keys|, 0
    {
      hide Sound, OnCycle, Topological, IsPath, Within, VisitedIn;
      if name in marks {
        Met(deps, marks, finished, path, name);
        if marks[name].InProgress? {
          OnPath(deps, marks, finished, path, name);
          culprit := Some(name);
        } else {
          culprit := None;
        }
      } else {
        Enter(deps, marks, finished, path, name);
        Smaller(deps.Keys - marks.Keys - {name}, deps.Keys - marks.Keys, name);
        assert deps.Keys - marks.Keys - {name} == deps.Keys - marks[name := InProgress].Keys;
        marks := marks[name := InProgress];
        culprit := Children(name, deps[name], path);
        if culprit.None? {
          Leave(deps, marks, finished, path, name);
          marks := marks[name := Visited];
          finished := finished + [name];
        }
      }
    }

    /** The loop of `dfs` over the dependencies of a node just entered. */
    method Children(name: T, ds: seq<T>, ghost path: seq<T>) returns (culprit: Option<T>)
      requires Valid(path + [name]) && name in deps && deps[name] == ds
      requires forall u, v :: Edge(deps, u, v) ==> v in deps
      modifies this
      ensures culprit.Some? ==> OnCycle(deps, culprit.value)
      ensures culprit.None? ==> Valid(path + [name]) && old(Done()) <= Done() && Within(ds, |ds|, Done())
      ensures old(marks.Keys) <= marks.Keys <= deps.Keys
      decreases |deps.Keys - marks.Keys|, 1
    {
      culprit := None;
      for k := 0 to |ds|
        invariant culprit.None? && Valid(path + [name])
        invariant old(Done()) <= Done() && Within(ds, k, Done())
        invariant old(marks.Keys) <= marks.Keys
      {
        assert Edge(deps, name, ds[k]);
        Fewer(old(marks.Keys), marks.Keys, deps.Keys);
        ghost var before := Done();
        culprit := Dfs(ds[k], path + [name]);
        if culprit.Some? {
          return;
        }
        OneMore(ds, k, before, Done());
      }
    }
  }

  /** A name met again while in progress closes a cycle through the path. */
  lemma OnPath<T(!new)>(g: Graph<T>, marks: map<T, Mark>, finished: seq<T>, path: seq<T>, name: T)
    requires Sound(g, marks, finished, path) && name in marks && marks[name].InProgress?
    requires path != [] ==> Edge(g, path[|path| - 1], name)
    ensures OnCycle(g, name)
  {
    var i :| 0 <= i < |path| && path[i] == name;
    ClosePath(g, path, i);
  }

  lemma Met<T(!new)>(g: Graph<T>, marks: map<T, Mark>, finished: seq<T>, path: seq<T>, name: T)
    requires Sound(g, marks, finished, path) && name in marks
    ensures marks.Keys <= g.Keys && (marks[name].Visited? ==> name in VisitedIn(marks))
  {
  }

  lemma Fewer<T>(a: set<T>, b: set<T>, all: set<T>)
    requires a <= b
    ensures |all - b| <= |all - a|
  {
    Subset(all - b, all - a);
  }

  lemma Smaller<T>(a: set<T>, b: set<T>, x: T)
    requires a <= b - {x} && x in b
    ensures |a| < |b|
  {
    Subset(a, b - {x});
  }

  lemma {:induction false} Subset<T>(a: set<T>, b: set<T>)
    requires a <= b
    ensures |a| <= |b|
  {
    if a != {} {
      var x :| x in a;
      Subset(a - {x}, b - {x});
    }
  }

  lemma ClosePath<T(!new)>(g: Graph<T>, path: seq<T>, i: nat)
    requires i < |path| && IsPath(g, path) && Edge(g, path[|path| - 1], path[i])
    ensures OnCycle(g, path[i])
  {
    var p := path[i..] + [path[i]];
    Suffix(g, path, i);
    assert p[..|p| - 1] == path[i..];
    assert IsCycle(g, p);
  }
}
