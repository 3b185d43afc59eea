/** Placeholder expansion in step commands (cmd/cexec/main.go: expandVars). Go walks
    the variable map in an arbitrary order, anew on every call. */
module Template {

  /** strings.ReplaceAll for a nonempty pattern: leftmost matches, no overlap. */
  function ReplaceAll(s: string, pat: string, sub: string): string
    requires pat != ""
    decreases |s|
  {
    if s == "" then ""
    else if pat <= s then sub + ReplaceAll(s[|pat|..], pat, sub)
    else [s[0]] + ReplaceAll(s[1..], pat, sub)
  }

  function Placeholder(k: string): string
  {
    "{{" + k + "}}"
  }

  /** `order` lists the keys of `vars`, each once: one iteration of the Go map. */
  ghost predicate IsOrder(order: seq<string>, vars: map<string, string>)
  {
    && (forall k :: k in order <==> k in vars)
    && (forall i, j :: 0 <= i < j < |order| ==> order[i] != order[j])
  }

  /** Some walk over the map always exists. */
  lemma {:induction false} SomeOrder(vars: map<string, string>) returns (order: seq<string>)
    ensures IsOrder(order, vars)
    decreases |vars|
  {
    if vars == map[] {
      order := [];
    } else {
      var k :| k in vars;
      var rest := vars - {k};
      assert rest.Keys == vars.Keys - {k};
      assert |rest| == |rest.Keys| < |vars.Keys| == |vars|;
      var tail := SomeOrder(rest);
      order := [k] + tail;
      forall x ensures x in order <==> x in vars {
        assert x in order <==> x == k || x in tail;
      }
    }
  }

  function ExpandIn(cmd: string, vars: map<string, string>, order: seq<string>): string
    requires forall k :: k in order ==> k in vars
    decreases |order|
  {
    if order == [] then cmd
    else ExpandIn(ReplaceAll(cmd, Placeholder(order[0]), vars[order[0]]), vars, order[1..])
  }

  /** expandVars. The key order is the out-parameter `order`: the caller has no say in it. */
  method ExpandVars(cmd: string, vars: map<string, string>) returns (out: string, order: seq<string>)
    ensures IsOrder(order, vars)
    ensures out == ExpandIn(cmd, vars, order)
  {
    out, order := cmd, [];
    var todo := vars.Keys;
    while todo != {}
      invariant todo <= vars.Keys
      invariant forall k :: k in order <==> k in vars && k !in todo
      invariant forall i, j :: 0 <= i < j < |order| ==> order[i] != order[j]
      invariant out == ExpandIn(cmd, vars, order)
      decreases todo
    {
      var k :| k in todo;
      ExpandLast(cmd, vars, order, k);
      out := ReplaceAll(out, Placeholder(k), vars[k]);
      order := order + [k];
      todo := todo - {k};
    }
  }

  lemma {:induction false} ExpandLast(cmd: string, vars: map<string, string>, order: seq<string>, k: string)
    requires k in vars && forall x :: x in order ==> x in vars
    ensures ExpandIn(cmd, vars, order + [k]) == ReplaceAll(ExpandIn(cmd, vars, order), Placeholder(k), vars[k])
    decreases |order|
  {
    if order == [] {
      assert ([] + [k])[1..] == [];
    } else {
      assert (order + [k])[1..] == order[1..] + [k];
      ExpandLast(ReplaceAll(cmd, Placeholder(order[0]), vars[order[0]]), vars, order[1..], k);
    }
  }

  // ---------------------------------------------------------------------------
  // Simultaneous substitution

  /** A command seen as literal text and placeholders. */
  datatype Segment = Lit(text: string) | Var(key: string)

  function Text(t: seq<Segment>): string
  {
    if t == [] then ""
    else (if t[0].Lit? then t[0].text else Placeholder(t[0].key)) + Text(t[1..])
  }

  /** Every placeholder replaced at once; an unknown one stays as it is written. */
  function Substitute(t: seq<Segment>, vars: map<string, string>): string
  {
    if t == [] then ""
    else
      (match t[0]
       case Lit(s) => s
       case Var(k) => if k in vars then vars[k] else Placeholder(k)) + Substitute(t[1..], vars)
  }

  predicate BraceFree(s: string)
  {
    '{' !in s && '}' !in s
  }

  /** Position of the first brace, or the length. */
  function FirstBrace(s: string): (p: nat)
    ensures p <= |s| && BraceFree(s[..p]) && (p < |s| ==> s[p] == '{' || s[p] == '}')
  {
    if s == "" || s[0] == '{' || s[0] == '}' then 0
    else
      var p := 1 + FirstBrace(s[1..]);
      assert s[..p] == [s[0]] + s[1..][..p - 1];
      p
  }

  /** The text after a double brace shows that no placeholder begins there. */
  predicate Shut(u: string)
  {
    var p := FirstBrace(u);
    p < |u| && (u[p] == '{' || (p + 1 < |u| && u[p + 1] != '}'))
  }

  /** No placeholder begins in the text: as in `awk '{print $1}'`, where single braces open
      nothing, or where what follows a double brace is visibly no name. */
  predicate Inert(s: string)
  {
    forall i :: 0 <= i < |s| && s[i] == '{' ==> i + 1 < |s| && (s[i + 1] != '{' || Shut(s[i + 2..]))
  }

  /** A placeholder stands at position i of the text. */
  predicate HoldsAt(s: string, i: nat, k: string)
  {
    i <= |s| && Placeholder(k) <= s[i..]
  }

  /** Inert, exactly: whatever text comes after, no placeholder begins in it. */
  lemma InertExact(s: string)
    ensures Inert(s) <==> forall i: nat, k, rest :: i < |s| && BraceFree(k) ==> !HoldsAt(s + rest, i, k)
  {
    if Inert(s) {
      forall i: nat, k, rest | i < |s| && BraceFree(k) ensures !HoldsAt(s + rest, i, k) {
        if HoldsAt(s + rest, i, k) { HeldIsNotInert(s, rest, i, k); }
      }
    } else {
      var i :| 0 <= i < |s| && s[i] == '{' && !(i + 1 < |s| && (s[i + 1] != '{' || Shut(s[i + 2..])));
      var k, rest := Completion(s, i);
      assert HoldsAt(s + rest, i, k);
    }
  }

  lemma HeldIsNotInert(s: string, rest: string, i: nat, k: string)
    requires i < |s| && BraceFree(k) && HoldsAt(s + rest, i, k)
    ensures !Inert(s)
  {
    var pat, t := Placeholder(k), (s + rest)[i..];
    assert t[0] == pat[0] == '{' && t[1] == pat[1] == '{';
    assert t[0] == s[i];
    if i + 1 < |s| {
      assert t[1] == s[i + 1];
      assert pat[2..] == k + "}}" && t[2..] == s[i + 2..] + rest;
      assert t[2..][..|k| + 2] == pat[2..] by { assert t[..|pat|] == pat; }
      NameEndsOpen(s[i + 2..], rest, k);
    }
  }

  lemma {:induction false} FirstBraceIs(a: string, b: string)
    requires BraceFree(a) && b != "" && (b[0] == '{' || b[0] == '}')
    ensures FirstBrace(a + b) == |a|
  {
    if a == "" {
      assert a + b == b;
    } else {
      assert (a + b)[1..] == a[1..] + b && a[0] in a;
      FirstBraceIs(a[1..], b);
    }
  }

  /** Where a name ends the text is not shut. */
  lemma NameEndsOpen(u: string, rest: string, k: string)
    requires BraceFree(k) && k + "}}" <= u + rest
    ensures !Shut(u)
  {
    var p, t := FirstBrace(u), u + rest;
    var after := t[|k| + 2..];
    assert t == k + ("}}" + after);
    FirstBraceIs(k, "}}" + after);
    if p < |u| {
      assert t == u[..p] + (u[p..] + rest);
      FirstBraceIs(u[..p], u[p..] + rest);
      assert t[|k|] == '}' && t[|k| + 1] == '}';
      assert u[p] == t[p] && (p + 1 < |u| ==> u[p + 1] == t[p + 1]);
    }
  }

  lemma Completes(u: string, rest: string, p: nat)
    requires !Shut(u) && p == FirstBrace(u)
    requires rest == if p == |u| then "}}" else if p + 1 == |u| then "}" else ""
    ensures p + 2 <= |u + rest| && u + rest == u[..p] + "}}" + (u + rest)[p + 2..]
  {
    var t := u + rest;
    assert t[p] == '}' && t[p + 1] == '}';
    assert t[..p] == u[..p];
  }

  /** The text that makes a placeholder of what an open double brace begins. */
  lemma Completion(s: string, i: nat) returns (k: string, rest: string)
    requires i < |s| && s[i] == '{' && !(i + 1 < |s| && (s[i + 1] != '{' || Shut(s[i + 2..])))
    ensures BraceFree(k) && HoldsAt(s + rest, i, k)
  {
    if i + 1 == |s| {
      k, rest := "", "{}}";
      assert (s + rest)[i..] == "{{" + k + "}}";
    } else {
      var u := s[i + 2..];
      var p := FirstBrace(u);
      assert s[i..] == "{{" + u;
      k := u[..p];
      rest := if p == |u| then "}}" else if p + 1 == |u| then "}" else "";
      Completes(u, rest, p);
      assert (s + rest)[i..] == "{{" + (u + rest);
      hide FirstBrace, Shut, BraceFree;
      assert "{{" + (k + "}}" + (u + rest)[p + 2..]) == Placeholder(k) + (u + rest)[p + 2..];
    }
  }

  /** Literal text opens no placeholder and placeholder names have no brace at all. */
  predicate Plain(t: seq<Segment>)
  {
    forall i :: 0 <= i < |t| ==>
      match t[i]
      case Lit(s) => Inert(s)
      case Var(k) => BraceFree(k)
  }

  /** Values as segments, by variable. */
  type Values = map<string, seq<Segment>>

  function Texts(vs: Values): map<string, string>
  {
    map k | k in vs :: Text(vs[k])
  }

  predicate Mentions(t: seq<Segment>, k: string)
  {
    Var(k) in t
  }

  /** Variable names have no brace, values are plain, and a value that another one mentions
      does not mention its own variable. */
  predicate PlainValues(vs: Values)
  {
    && (forall k :: k in vs ==> BraceFree(k) && Plain(vs[k]))
    && (forall k, j :: k in vs && j in vs && k != j && Mentions(vs[k], j) ==> !Mentions(vs[j], j))
  }

  /** No variable the text mentions has a value that mentions another variable of the map. */
  predicate Flat(t: seq<Segment>, vs: Values)
  {
    forall k, j :: k in vs && j in vs && k != j && Mentions(t, k) ==> !Mentions(vs[k], j)
  }

  /** One variable filled in, the other placeholders left. */
  function Fill(t: seq<Segment>, k: string, v: seq<Segment>): seq<Segment>
  {
    if t == [] then [] else (if t[0] == Var(k) then v else [t[0]]) + Fill(t[1..], k, v)
  }

  /** No match begins inside `pre`, so replacement passes over it. */
  lemma {:induction false} SkipPrefix(pre: string, rest: string, pat: string, sub: string)
    requires pat != ""
    requires forall i :: 0 <= i < |pre| ==> !(pat <= (pre + rest)[i..])
    ensures ReplaceAll(pre + rest, pat, sub) == pre + ReplaceAll(rest, pat, sub)
  {
    if pre == "" {
      assert pre + rest == rest;
    } else {
      var s := pre + rest;
      assert s[1..] == pre[1..] + rest;
      forall i | 0 <= i < |pre[1..]| ensures !(pat <= (pre[1..] + rest)[i..]) {
        assert (pre[1..] + rest)[i..] == s[i + 1..];
      }
      assert !(pat <= s) by { assert s[0..] == s; }
      SkipPrefix(pre[1..], rest, pat, sub);
    }
  }

  /** A placeholder for `k` matches at another placeholder only if the names agree. */
  lemma PlaceholderMatch(j: string, k: string, rest: string)
    requires BraceFree(j) && BraceFree(k)
    requires Placeholder(k) <= Placeholder(j) + rest
    ensures j == k
  {
    var p, s := Placeholder(k), Placeholder(j) + rest;
    assert s[..|p|] == p;
    assert p[|k| + 2] == '}' && s[|j| + 2] == '}';
    // The first closing brace of either text stands right after its name.
    assert forall i :: 2 <= i < |k| + 2 ==> p[i] != '}' by { assert forall i :: 2 <= i < |k| + 2 ==> p[i] == k[i - 2]; }
    assert forall i :: 2 <= i < |j| + 2 ==> s[i] != '}' by { assert forall i :: 2 <= i < |j| + 2 ==> s[i] == j[i - 2]; }
    assert forall i :: 0 <= i < |p| ==> p[i] == s[i];
    assert |j| == |k|;
    assert p[2..|k| + 2] == k && s[2..|j| + 2] == j;
    assert s[2..|j| + 2] == p[2..|k| + 2];
  }

  lemma {:induction false} TextAppend(a: seq<Segment>, b: seq<Segment>)
    ensures Text(a + b) == Text(a) + Text(b)
  {
    if a == [] {
      assert a + b == b;
    } else {
      assert (a + b)[1..] == a[1..] + b;
      TextAppend(a[1..], b);
    }
  }

  /** Replacing a placeholder right at the front of a plain text. */
  lemma ReplaceFront(s: Segment, rest: string, k: string, v: string)
    requires Plain([s]) && BraceFree(k)
    ensures ReplaceAll(Text([s]) + rest, Placeholder(k), v) ==
            (if s == Var(k) then v else Text([s])) + ReplaceAll(rest, Placeholder(k), v)
  {
    var pat, pre := Placeholder(k), Text([s]);
    assert match [s][0] case Lit(x) => Inert(x) case Var(x) => BraceFree(x);
    if s == Var(k) {
      assert pre == pat && (pre + rest)[|pat|..] == rest;
      assert pat <= pre + rest;
    } else {
      forall i | 0 <= i < |pre| ensures !(pat <= (pre + rest)[i..]) {
        NoMatchInside(s, rest, k, i);
      }
      SkipPrefix(pre, rest, pat, v);
    }
  }

  lemma NoMatchInside(s: Segment, rest: string, k: string, i: nat)
    requires (match s case Lit(x) => Inert(x) case Var(x) => BraceFree(x) && x != k) && BraceFree(k)
    requires i < |Text([s])|
    ensures !(Placeholder(k) <= (Text([s]) + rest)[i..])
  {
    var pat, pre := Placeholder(k), Text([s]);
    var u := (pre + rest)[i..];
    assert pat[0] == '{' && pat[1] == '{' && u[0] == pre[i];
    match s {
      case Lit(x) =>
        assert pre == x;
        if pat <= u { HeldIsNotInert(x, rest, i, k); }
      case Var(j) =>
        assert pre == Placeholder(j);
        if i == 0 {
          assert u == pre + rest;
          if pat <= u { PlaceholderMatch(j, k, rest); }
        } else if i == 1 {
          assert u[1] == pre[2] != '{';
        }
    }
  }

  /** Replacing one placeholder in the text is filling it in the segments. */
  lemma {:induction false} ReplaceIsFill(t: seq<Segment>, k: string, v: seq<Segment>)
    requires Plain(t) && BraceFree(k)
    ensures ReplaceAll(Text(t), Placeholder(k), Text(v)) == Text(Fill(t, k, v))
  {
    if t != [] {
      PlainTail(t);
      ReplaceIsFill(t[1..], k, v);
      assert Text(t) == Text([t[0]]) + Text(t[1..]);
      ReplaceFront(t[0], Text(t[1..]), k, Text(v));
      TextAppend(if t[0] == Var(k) then v else [t[0]], Fill(t[1..], k, v));
    }
  }

  lemma PlainTail(t: seq<Segment>)
    requires Plain(t) && t != []
    ensures Plain([t[0]]) && Plain(t[1..])
  {
    forall i | 0 <= i < |t[1..]|
      ensures match t[1..][i] case Lit(s) => Inert(s) case Var(x) => BraceFree(x)
    {
      assert t[1..][i] == t[i + 1];
    }
  }

  lemma MentionsAppend(a: seq<Segment>, b: seq<Segment>, x: string)
    ensures Mentions(a + b, x) <==> Mentions(a, x) || Mentions(b, x)
  {
  }

  /** Filling keeps a text plain; it mentions what it did, without `k`, and what the value does. */
  lemma {:induction false} FillMentions(t: seq<Segment>, k: string, v: seq<Segment>)
    requires Plain(t) && Plain(v)
    ensures Plain(Fill(t, k, v))
    ensures forall x :: Mentions(Fill(t, k, v), x) <==> (x != k && Mentions(t, x)) || (Mentions(t, k) && Mentions(v, x))
  {
    if t != [] {
      PlainTail(t);
      FillMentions(t[1..], k, v);
      var front, rest := if t[0] == Var(k) then v else [t[0]], Fill(t[1..], k, v);
      assert Plain(front + rest);
      forall x
        ensures Mentions(Fill(t, k, v), x) <==> (x != k && Mentions(t, x)) || (Mentions(t, k) && Mentions(v, x))
      {
        assert Fill(t, k, v) == front + rest;
        MentionsAppend(front, rest, x);
        assert t == [t[0]] + t[1..];
        MentionsAppend([t[0]], t[1..], x);
        MentionsAppend([t[0]], t[1..], k);
      }
    }
  }

  // ---------------------------------------------------------------------------
  // One walk over the variables

  /** The variables of `order` filled in one after the other. */
  function FillAll(t: seq<Segment>, vs: Values, order: seq<string>): seq<Segment>
    requires forall k :: k in order ==> k in vs
    decreases |order|
  {
    if order == [] then t else FillAll(Fill(t, order[0], vs[order[0]]), vs, order[1..])
  }

  lemma {:induction false} ExpandIsFillAll(t: seq<Segment>, vs: Values, order: seq<string>)
    requires Plain(t) && PlainValues(vs) && forall k :: k in order ==> k in vs
    ensures ExpandIn(Text(t), Texts(vs), order) == Text(FillAll(t, vs, order)) && Plain(FillAll(t, vs, order))
    decreases |order|
  {
    if order != [] {
      var k := order[0];
      ReplaceIsFill(t, k, vs[k]);
      FillMentions(t, k, vs[k]);
      ExpandIsFillAll(Fill(t, k, vs[k]), vs, order[1..]);
    }
  }

  lemma {:induction false} FillAllAppend(t: seq<Segment>, vs: Values, a: seq<string>, b: seq<string>)
    requires (forall k :: k in a ==> k in vs) && (forall k :: k in b ==> k in vs)
    ensures FillAll(t, vs, a + b) == FillAll(FillAll(t, vs, a), vs, b)
    decreases |a|
  {
    if a == [] {
      assert a + b == b;
    } else {
      assert (a + b)[1..] == a[1..] + b;
      FillAllAppend(Fill(t, a[0], vs[a[0]]), vs, a[1..], b);
    }
  }

  function Restricted(vars: map<string, string>, keys: seq<string>): map<string, string>
  {
    map k | k in vars && k in keys :: vars[k]
  }

  lemma {:induction false} SubstituteAppend(a: seq<Segment>, b: seq<Segment>, vars: map<string, string>)
    ensures Substitute(a + b, vars) == Substitute(a, vars) + Substitute(b, vars)
  {
    if a == [] {
      assert a + b == b;
    } else {
      assert (a + b)[1..] == a[1..] + b;
      SubstituteAppend(a[1..], b, vars);
    }
  }

  lemma {:induction false} SubstituteNothing(t: seq<Segment>, vars: map<string, string>)
    requires forall k :: k in vars ==> !Mentions(t, k)
    ensures Substitute(t, vars) == Text(t)
  {
    if t != [] {
      assert t == [t[0]] + t[1..];
      assert t[0].Var? ==> Mentions(t, t[0].key);
      forall k | k in vars ensures !Mentions(t[1..], k) {
        MentionsAppend([t[0]], t[1..], k);
      }
      hide Mentions;
      SubstituteNothing(t[1..], vars);
    }
  }

  lemma {:induction false} SubstituteAfterFill(t: seq<Segment>, k: string, vs: Values, keys: seq<string>)
    requires k in vs && k !in keys && Flat(t, vs)
    ensures Substitute(Fill(t, k, vs[k]), Restricted(Texts(vs), keys)) ==
              Substitute(t, Restricted(Texts(vs), [k] + keys))
  {
    if t != [] {
      var few, more := Restricted(Texts(vs), keys), Restricted(Texts(vs), [k] + keys);
      assert t == [t[0]] + t[1..];
      SubstituteAfterFill(t[1..], k, vs, keys);
      var front := if t[0] == Var(k) then vs[k] else [t[0]];
      SubstituteAppend(front, Fill(t[1..], k, vs[k]), few);
      if t[0] == Var(k) { assert Mentions(t, k); SubstituteNothing(vs[k], few); }
      assert Substitute(front, few) == Substitute([t[0]], more);
      SubstituteAppend([t[0]], t[1..], more);
    }
  }

  /** Filling the variables of `order` one after the other is substituting them at once. */
  lemma {:induction false} FillAllSubstitutes(t: seq<Segment>, vs: Values, order: seq<string>)
    requires Plain(t) && PlainValues(vs) && Flat(t, vs)
    requires forall k :: k in order ==> k in vs
    requires forall i, j :: 0 <= i < j < |order| ==> order[i] != order[j]
    ensures Text(FillAll(t, vs, order)) == Substitute(t, Restricted(Texts(vs), order))
    decreases |order|
  {
    if order == [] {
      SubstituteNothing(t, Restricted(Texts(vs), order));
    } else {
      var k, rest := order[0], order[1..];
      FillMentions(t, k, vs[k]);
      hide Plain, Fill, Substitute;
      FillAllSubstitutes(Fill(t, k, vs[k]), vs, rest);
      SubstituteAfterFill(t, k, vs, rest);
      assert [k] + rest == order;
    }
  }

  /** expandVars is simultaneous substitution, whatever order the map is walked in, when no
      value it puts in mentions a variable itself. */
  lemma ExpansionIsSubstitution(t: seq<Segment>, vs: Values, order: seq<string>)
    requires Plain(t) && PlainValues(vs) && Flat(t, vs) && IsOrder(order, Texts(vs))
    ensures ExpandIn(Text(t), Texts(vs), order) == Substitute(t, Texts(vs))
  {
    ExpandIsFillAll(t, vs, order);
    FillAllSubstitutes(t, vs, order);
    assert Restricted(Texts(vs), order) == Texts(vs);
  }

  // ---------------------------------------------------------------------------
  // When the order of the walk does not matter

  /** Any two walks over the map expand `cmd` to the same text. */
  ghost predicate OrderIndependent(cmd: string, vars: map<string, string>)
  {
    forall o1, o2 :: IsOrder(o1, vars) && IsOrder(o2, vars) ==> ExpandIn(cmd, vars, o1) == ExpandIn(cmd, vars, o2)
  }

  lemma FlatIsOrderIndependent(t: seq<Segment>, vs: Values)
    requires Plain(t) && PlainValues(vs) && Flat(t, vs)
    ensures OrderIndependent(Text(t), Texts(vs))
  {
    var vars := Texts(vs);
    forall o1, o2 | IsOrder(o1, vars) && IsOrder(o2, vars)
      ensures ExpandIn(Text(t), vars, o1) == ExpandIn(Text(t), vars, o2)
    {
      ExpansionIsSubstitution(t, vs, o1);
      ExpansionIsSubstitution(t, vs, o2);
    }
  }

  /** A mentioned variable stays mentioned until it is filled in. */
  lemma {:induction false} StillMentioned(t: seq<Segment>, vs: Values, order: seq<string>, k: string)
    requires Plain(t) && PlainValues(vs) && Mentions(t, k)
    requires k !in order && forall x :: x in order ==> x in vs
    ensures Plain(FillAll(t, vs, order)) && Mentions(FillAll(t, vs, order), k)
    decreases |order|
  {
    if order != [] {
      FillMentions(t, order[0], vs[order[0]]);
      StillMentioned(Fill(t, order[0], vs[order[0]]), vs, order[1..], k);
    }
  }

  lemma {:induction false} FillLength(t: seq<Segment>, k: string)
    ensures |Text(Fill(t, k, []))| <= |Text(t)|
    ensures |Text(Fill(t, k, []))| < |Text(t)| <==> Mentions(t, k)
  {
    if t != [] {
      assert t == [t[0]] + t[1..];
      FillLength(t[1..], k);
      TextAppend(if t[0] == Var(k) then [] else [t[0]], Fill(t[1..], k, []));
      TextAppend([t[0]], t[1..]);
    }
  }

  /** The text tells which variables are mentioned. */
  lemma TextShowsMentions(a: seq<Segment>, b: seq<Segment>, j: string)
    requires Plain(a) && Plain(b) && BraceFree(j) && Text(a) == Text(b)
    ensures Mentions(a, j) <==> Mentions(b, j)
  {
    ReplaceIsFill(a, j, []);
    ReplaceIsFill(b, j, []);
    FillLength(a, j);
    FillLength(b, j);
  }

  /** Filling `k` last leaves a `j` from its value behind; filling `j` last does not. */
  lemma LastTwoMatter(t: seq<Segment>, vs: Values, others: seq<string>, j: string, k: string)
    requires Plain(t) && PlainValues(vs) && j in vs && k in vs && j != k
    requires Mentions(t, k) && Mentions(vs[k], j)
    requires k !in others && forall x :: x in others ==> x in vs
    ensures ExpandIn(Text(t), Texts(vs), others + [j, k]) != ExpandIn(Text(t), Texts(vs), others + [k, j])
  {
    var u := FillAll(t, vs, others);
    StillMentioned(t, vs, others, k);
    FillMentions(u, j, vs[j]);
    FillMentions(Fill(u, j, vs[j]), k, vs[k]);
    FillMentions(u, k, vs[k]);
    FillMentions(Fill(u, k, vs[k]), j, vs[j]);
    FillAllAppend(t, vs, others, [j, k]);
    FillAllAppend(t, vs, others, [k, j]);
    FillTwo(u, vs, j, k);
    FillTwo(u, vs, k, j);
    ExpandIsFillAll(t, vs, others + [j, k]);
    ExpandIsFillAll(t, vs, others + [k, j]);
    var a, b := FillAll(t, vs, others + [j, k]), FillAll(t, vs, others + [k, j]);
    hide Plain, Fill, FillAll, ExpandIn, Text;
    if Text(a) == Text(b) { TextShowsMentions(a, b, j); }
  }

  lemma FillTwo(u: seq<Segment>, vs: Values, a: string, b: string)
    requires a in vs && b in vs
    ensures FillAll(u, vs, [a, b]) == Fill(Fill(u, a, vs[a]), b, vs[b])
  {
    var w := Fill(u, a, vs[a]);
    assert [a, b][1..] == [b] && [b][1..] == [];
    assert FillAll(u, vs, [a, b]) == FillAll(w, vs, [b]);
    assert FillAll(w, vs, [b]) == FillAll(Fill(w, b, vs[b]), vs, []);
  }

  /** Order independence, exactly: no variable the command mentions has a value that
      mentions a variable of the map. */
  lemma OrderIndependentWhen(t: seq<Segment>, vs: Values)
    requires Plain(t) && PlainValues(vs)
    ensures OrderIndependent(Text(t), Texts(vs)) <==> Flat(t, vs)
  {
    if Flat(t, vs) {
      FlatIsOrderIndependent(t, vs);
    } else {
      var k, j :| k in vs && j in vs && k != j && Mentions(t, k) && Mentions(vs[k], j);
      OrderMatters(t, vs, j, k);
    }
  }

  lemma OrderMatters(t: seq<Segment>, vs: Values, j: string, k: string)
    requires Plain(t) && PlainValues(vs) && j in vs && k in vs && j != k && Mentions(t, k) && Mentions(vs[k], j)
    ensures !OrderIndependent(Text(t), Texts(vs))
  {
    var vars := Texts(vs);
    var others := SomeOrder(vars - {j, k});
    LastTwoMatter(t, vs, others, j, k);
    WalkEndsWith(vars, others, j, k);
    WalkEndsWith(vars, others, k, j);
    hide ExpandIn, Text, Texts, IsOrder, PlainValues;
    WalksDiffer(Text(t), vars, others + [j, k], others + [k, j]);
  }

  lemma WalksDiffer(cmd: string, vars: map<string, string>, o1: seq<string>, o2: seq<string>)
    requires IsOrder(o1, vars) && IsOrder(o2, vars) && ExpandIn(cmd, vars, o1) != ExpandIn(cmd, vars, o2)
    ensures !OrderIndependent(cmd, vars)
  {
  }

  lemma WalkEndsWith(vars: map<string, string>, others: seq<string>, a: string, b: string)
    requires a in vars && b in vars && a != b && IsOrder(others, vars - {a, b})
    ensures IsOrder(others + [a, b], vars)
  {
    var order := others + [a, b];
    forall x ensures x in order <==> x in vars {
      assert x in order <==> x in others || x == a || x == b;
    }
    forall i, j | 0 <= i < j < |order| ensures order[i] != order[j] {
      assert i < |others| ==> order[i] == others[i] && others[i] in others;
      assert j < |others| ==> order[j] == others[j];
    }
  }

  predicate PlainVars(vars: map<string, string>)
  {
    forall k :: k in vars ==> BraceFree(k) && Inert(vars[k])
  }

  /** In particular with literal values. */
  lemma PlainIsOrderIndependent(t: seq<Segment>, vars: map<string, string>)
    requires Plain(t) && PlainVars(vars)
    ensures OrderIndependent(Text(t), vars)
  {
    var vs: Values := map k | k in vars :: [Lit(vars[k])];
    assert forall k :: k in vars ==> Plain(vs[k]);
    assert forall k, j :: k in vars ==> !Mentions(vs[k], j);
    forall k | k in vars ensures Text(vs[k]) == vars[k] { OneSegment(Lit(vars[k]), k, []); }
    hide Plain, Text, Mentions, OrderIndependent;
    assert Texts(vs) == vars;
    FlatIsOrderIndependent(t, vs);
  }

  lemma OneSegment(s: Segment, k: string, v: seq<Segment>)
    ensures Text([s]) == if s.Lit? then s.text else Placeholder(s.key)
    ensures Fill([s], k, v) == if s == Var(k) then v else [s]
  {
    assert [s][1..] == [];
  }

  /** The smallest case: the two walks over a nested value, and what they give. */
  lemma NestedValuesDependOnOrder()
    ensures var vars := map["a" := "{{b}}", "b" := "x"];
            && IsOrder(["a", "b"], vars) && IsOrder(["b", "a"], vars)
            && ExpandIn("{{a}}", vars, ["a", "b"]) == "x"
            && ExpandIn("{{a}}", vars, ["b", "a"]) == "{{b}}"
            && !OrderIndependent("{{a}}", vars)
  {
    var vs, vars, t := Nested(), map["a" := "{{b}}", "b" := "x"], [Var("a")];
    var o1, o2 := ["a", "b"], ["b", "a"];
    assert IsOrder(o1, vars) && IsOrder(o2, vars);
    hide Fill, FillAll, Text, Texts, Plain, PlainValues, ExpandIn, IsOrder, Nested;
    NestedTexts();
    NestedWalks();
    ExpandIsFillAll(t, vs, o1);
    ExpandIsFillAll(t, vs, o2);
    WalksDiffer(Text(t), vars, o1, o2);
  }

  function Nested(): Values
  {
    map["a" := [Var("b")], "b" := [Lit("x")]]
  }

  lemma NestedTexts()
    ensures Texts(Nested()) == map["a" := "{{b}}", "b" := "x"] && PlainValues(Nested()) && Plain([Var("a")])
    ensures Text([Var("a")]) == "{{a}}" && Text([Var("b")]) == "{{b}}" && Text([Lit("x")]) == "x"
  {
    hide Text, Fill, Plain, PlainValues, Placeholder;
    NestedIsPlain();
    PlaceholdersAB();
    OneSegment(Var("a"), "a", []);
    OneSegment(Var("b"), "b", []);
    OneSegment(Lit("x"), "b", []);
    var vs := Nested();
    assert vs.Keys == {"a", "b"} && vs["a"] == [Var("b")] && vs["b"] == [Lit("x")];
    hide Nested;
    assert Texts(vs) == map["a" := "{{b}}", "b" := "x"];
  }

  lemma PlaceholdersAB()
    ensures Placeholder("a") == "{{a}}" && Placeholder("b") == "{{b}}"
  {
  }

  lemma NestedIsPlain()
    ensures PlainValues(Nested()) && Plain([Var("a")])
  {
    var vs := Nested();
    assert vs.Keys == {"a", "b"} && vs["a"] == [Var("b")] && vs["b"] == [Lit("x")];
    assert BraceFree("a") && BraceFree("b") && Inert("x");
    hide Inert, BraceFree, Nested;
    assert Plain([Var("b")]) && Plain([Lit("x")]);
    assert Mentions([Var("b")], "b") && !Mentions([Var("b")], "a");
    assert !Mentions([Lit("x")], "a") && !Mentions([Lit("x")], "b");
  }

  lemma NestedWalks()
    ensures "a" in Nested() && "b" in Nested()
    ensures FillAll([Var("a")], Nested(), ["a", "b"]) == [Lit("x")]
    ensures FillAll([Var("a")], Nested(), ["b", "a"]) == [Var("b")]
  {
    var vs, t := Nested(), [Var("a")];
    assert vs["a"] == [Var("b")] && vs["b"] == [Lit("x")];
    hide Fill, FillAll;
    OneSegment(Var("a"), "a", vs["a"]);
    OneSegment(Var("a"), "b", vs["b"]);
    OneSegment(Var("b"), "b", vs["b"]);
    FillTwo(t, vs, "a", "b");
    FillTwo(t, vs, "b", "a");
  }
}
