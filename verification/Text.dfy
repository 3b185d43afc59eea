/** The string functions of Go's library that the inventory and hosts code relies on,
    and decimal notation. */
module Text {

  /** unicode.IsSpace */
  predicate IsSpace(c: char)
  {
    || '\t' <= c <= '\r' || c == ' ' || c == '\U{85}' || c == '\U{A0}' || c == '\U{1680}'
    || '\U{2000}' <= c <= '\U{200A}' || c == '\U{2028}' || c == '\U{2029}' || c == '\U{202F}'
    || c == '\U{205F}' || c == '\U{3000}'
  }

  /** The same, character by character. */
  lemma SpaceCharacters(c: char)
    ensures IsSpace(c) <==>
            c in ['\t', '\n', '\U{0B}', '\U{0C}', '\r', ' ', '\U{85}', '\U{A0}', '\U{1680}', '\U{2000}', '\U{2001}',
                  '\U{2002}', '\U{2003}', '\U{2004}', '\U{2005}', '\U{2006}', '\U{2007}', '\U{2008}', '\U{2009}',
                  '\U{200A}', '\U{2028}', '\U{2029}', '\U{202F}', '\U{205F}', '\U{3000}']
  {
  }

  predicate IsVisible(c: char)
  {
    !IsSpace(c)
  }

  predicate IsDigit(c: char)
  {
    '0' <= c <= '9'
  }

  predicate IsLetter(c: char)
  {
    'a' <= c <= 'z' || 'A' <= c <= 'Z'
  }

  lemma DigitCharacters(c: char)
    ensures IsDigit(c) <==> c in "0123456789"
  {
    var digits := "0123456789";
    if IsDigit(c) { assert digits[(c - '0') as int] == c; }
  }

  lemma LetterCharacters(c: char)
    ensures IsLetter(c) <==> c in "abcdefghijklmnopqrstuvwxyz" || c in "ABCDEFGHIJKLMNOPQRSTUVWXYZ"
  {
    SmallLetters(c);
    LargeLetters(c);
  }

  lemma SmallLetters(c: char)
    ensures 'a' <= c <= 'z' <==> c in "abcdefghijklmnopqrstuvwxyz"
  {
    var letters := "abcdefghijklmnopqrstuvwxyz";
    if 'a' <= c <= 'z' { assert letters[(c - 'a') as int] == c; }
  }

  lemma LargeLetters(c: char)
    ensures 'A' <= c <= 'Z' <==> c in "ABCDEFGHIJKLMNOPQRSTUVWXYZ"
  {
    var letters := "ABCDEFGHIJKLMNOPQRSTUVWXYZ";
    if 'A' <= c <= 'Z' { assert letters[(c - 'A') as int] == c; }
  }

  predicate All(s: string, p: char -> bool)
  {
    forall i :: 0 <= i < |s| ==> p(s[i])
  }

  /** Length of the longest prefix all of whose characters satisfy `p`. */
  function Span(s: string, p: char -> bool): (n: nat)
    ensures n <= |s| && All(s[..n], p) && (n < |s| ==> !p(s[n]))
  {
    if s == "" || !p(s[0]) then 0
    else
      var n := 1 + Span(s[1..], p);
      assert s[..n] == [s[0]] + s[1..][..n - 1];
      n
  }

  lemma {:induction false} SpanIs(a: string, b: string, p: char -> bool)
    requires All(a, p) && (b == "" || !p(b[0]))
    ensures Span(a + b, p) == |a|
  {
    if a == "" {
      assert a + b == b;
    } else {
      assert (a + b)[1..] == a[1..] + b;
      SpanIs(a[1..], b, p);
    }
  }

  function TrimLeft(s: string): (r: string)
    ensures r != "" ==> !IsSpace(r[0])
    ensures |r| <= |s|
  {
    s[Span(s, IsSpace)..]
  }

  function TrimRight(s: string): (r: string)
    ensures r <= s && (r != "" ==> !IsSpace(r[|r| - 1]))
  {
    if s == "" || !IsSpace(s[|s| - 1]) then s else TrimRight(s[..|s| - 1])
  }

  /** strings.TrimSpace */
  function Trim(s: string): (r: string)
    ensures r != "" ==> !IsSpace(r[0]) && !IsSpace(r[|r| - 1])
  {
    TrimRight(TrimLeft(s))
  }

  lemma {:induction false} TrimRightIs(r: string, b: string)
    requires All(b, IsSpace) && (r != "" ==> !IsSpace(r[|r| - 1]))
    ensures TrimRight(r + b) == r
  {
    if b == "" {
      assert r + b == r;
    } else {
      assert (r + b)[..|r + b| - 1] == r + b[..|b| - 1];
      TrimRightIs(r, b[..|b| - 1]);
    }
  }

  /** Trimming takes the white space off both ends and nothing else. */
  lemma TrimIs(a: string, r: string, b: string)
    requires All(a, IsSpace) && All(b, IsSpace)
    requires r != "" && !IsSpace(r[0]) && !IsSpace(r[|r| - 1])
    ensures Trim(a + r + b) == r
  {
    var s := r + b;
    assert a + r + b == a + s && s[0] == r[0];
    SpanIs(a, s, IsSpace);
    assert (a + s)[|a|..] == s;
    TrimRightIs(r, b);
  }

  lemma {:induction false} TrimRightSplits(s: string) returns (b: string)
    ensures s == TrimRight(s) + b && All(b, IsSpace)
  {
    if s == "" || !IsSpace(s[|s| - 1]) {
      b := "";
    } else {
      var c := TrimRightSplits(s[..|s| - 1]);
      b := c + [s[|s| - 1]];
    }
  }

  lemma {:induction false} TrimRightKeeps(x: string)
    requires x != "" && !IsSpace(x[0])
    ensures TrimRight(x) != ""
  {
    if |x| > 1 && IsSpace(x[|x| - 1]) {
      TrimRightKeeps(x[..|x| - 1]);
    }
  }

  /** What is left of a text that is not blank starts where the text starts. */
  lemma TrimKeepsFirst(a: string, x: string) returns (y: string, b: string)
    requires All(a, IsSpace) && x != "" && !IsSpace(x[0])
    ensures Trim(a + x) == y && x == y + b && All(b, IsSpace) && y != "" && y[0] == x[0]
  {
    SpanIs(a, x, IsSpace);
    assert (a + x)[|a|..] == x;
    y := TrimRight(x);
    b := TrimRightSplits(x);
    TrimRightKeeps(x);
  }

  lemma TrimBlank(s: string)
    requires All(s, IsSpace)
    ensures Trim(s) == ""
  {
    SpanIs(s, "", IsSpace);
    assert s + "" == s;
  }

  /** strings.Fields: the maximal runs of characters that are not white space. */
  function Fields(s: string): (fs: seq<string>)
    decreases |s|
    ensures forall i :: 0 <= i < |fs| ==> fs[i] != "" && All(fs[i], IsVisible)
  {
    var t := TrimLeft(s);
    if t == "" then []
    else
      var n := Span(t, IsVisible);
      [t[..n]] + Fields(t[n..])
  }

  /** The words of a text: white space, a word, then white space or the end, and so on. */
  ghost predicate IsFields(s: string, fs: seq<string>)
    decreases |fs|
  {
    if fs == [] then All(s, IsSpace)
    else exists a, r :: s == a + fs[0] + r && StartsWord(a, fs[0], r) && IsFields(r, fs[1..])
  }

  predicate StartsWord(a: string, w: string, r: string)
  {
    All(a, IsSpace) && w != "" && All(w, IsVisible) && (r == "" || IsSpace(r[0]))
  }

  lemma WordFirst(a: string, w: string, r: string, fs: seq<string>)
    requires StartsWord(a, w, r) && IsFields(r, fs)
    ensures IsFields(a + w + r, [w] + fs)
  {
    var all := [w] + fs;
    assert all[0] == w && all[1..] == fs;
    hide StartsWord;
    assert a + w + r == a + all[0] + r && StartsWord(a, all[0], r) && IsFields(r, all[1..]);
  }

  lemma FieldsNext(a: string, w: string, r: string)
    requires StartsWord(a, w, r)
    ensures Fields(a + w + r) == [w] + Fields(r)
  {
    var s, t := a + w + r, w + r;
    assert s == a + t && t[0] == w[0];
    SpanIs(a, t, IsSpace);
    assert s[|a|..] == t;
    SpanIs(w, r, IsVisible);
    assert t[..|w|] == w && t[|w|..] == r;
  }

  lemma FieldsOfBlank(s: string)
    requires All(s, IsSpace)
    ensures Fields(s) == []
  {
    SpanIs(s, "", IsSpace);
    assert s + "" == s;
  }

  /** Fields finds the words, and there is only one way to read a text as words. */
  lemma {:induction false} FieldsExact(s: string, fs: seq<string>)
    ensures Fields(s) == fs <==> IsFields(s, fs)
    decreases |s|
  {
    if IsFields(s, fs) { WordsAreFields(s, fs); }
    if Fields(s) == fs { FieldsAreWords(s); }
  }

  lemma {:induction false} WordsAreFields(s: string, fs: seq<string>)
    requires IsFields(s, fs)
    ensures Fields(s) == fs
    decreases |fs|
  {
    if fs == [] {
      FieldsOfBlank(s);
    } else {
      hide Fields, IsFields, StartsWord;
      var a, r := TakeWord(s, fs);
      WordsAreFields(r, fs[1..]);
      FieldsNext(a, fs[0], r);
    }
  }

  lemma TakeWord(s: string, fs: seq<string>) returns (a: string, r: string)
    requires IsFields(s, fs) && fs != []
    ensures s == a + fs[0] + r && StartsWord(a, fs[0], r) && IsFields(r, fs[1..])
    ensures fs == [fs[0]] + fs[1..]
  {
    hide StartsWord;
    a, r :| s == a + fs[0] + r && StartsWord(a, fs[0], r) && IsFields(r, fs[1..]);
  }

  lemma {:induction false} FieldsAreWords(s: string)
    ensures IsFields(s, Fields(s))
    decreases |s|
  {
    hide Fields, IsFields, StartsWord;
    var a, w, r := FirstWord(s);
    if w == "" {
      FieldsOfBlank(s);
      NoWords(s);
    } else {
      FieldsAreWords(r);
      FieldsNext(a, w, r);
      WordFirst(a, w, r, Fields(r));
    }
  }

  lemma NoWords(s: string)
    requires All(s, IsSpace)
    ensures IsFields(s, [])
  {
  }

  lemma NoWordNoText(t: string, n: nat)
    requires n == Span(t, IsVisible) && (t != "" ==> !IsSpace(t[0]))
    ensures n == 0 ==> t == ""
  {
  }

  lemma WordStarts(a: string, w: string, r: string)
    requires All(a, IsSpace) && w != "" && All(w, IsVisible) && (r != "" ==> !IsVisible(r[0]))
    ensures StartsWord(a, w, r)
  {
  }

  lemma CutUp(s: string, k: nat)
    requires k <= |s|
    ensures s == s[..k] + s[k..]
  {
  }

  lemma Associative<T>(a: seq<T>, b: seq<T>, c: seq<T>)
    ensures a + (b + c) == a + b + c
  {
  }

  lemma FirstWord(s: string) returns (a: string, w: string, r: string)
    ensures s == a + w + r && |r| + |w| <= |s|
    ensures if w == "" then All(s, IsSpace) else StartsWord(a, w, r)
  {
    hide Span, StartsWord;
    var k := Span(s, IsSpace);
    var t := s[k..];
    var n := Span(t, IsVisible);
    a, w, r := s[..k], t[..n], t[n..];
    CutUp(s, k);
    CutUp(t, n);
    Associative(a, w, r);
    assert t != "" ==> t[0] == s[k];
    NoWordNoText(t, n);
    if n > 0 { WordStarts(a, w, r); }
  }

  /** A text spelled out: words, each after its white space, and white space at the end. */
  function Spelled(ws: seq<(string, string)>, post: string): string
  {
    if ws == [] then post else ws[0].0 + ws[0].1 + Spelled(ws[1..], post)
  }

  function Words(ws: seq<(string, string)>): (fs: seq<string>)
    ensures |fs| == |ws| && forall i :: 0 <= i < |ws| ==> fs[i] == ws[i].1
  {
    if ws == [] then [] else [ws[0].1] + Words(ws[1..])
  }

  /** White space of any kind and length before each word; there is some between two words. */
  predicate WellSpaced(ws: seq<(string, string)>)
  {
    forall i :: 0 <= i < |ws| ==>
      && All(ws[i].0, IsSpace) && ws[i].1 != "" && All(ws[i].1, IsVisible)
      && (i > 0 ==> ws[i].0 != "")
  }

  lemma {:induction false} SpelledHasWords(ws: seq<(string, string)>, post: string)
    requires WellSpaced(ws) && All(post, IsSpace)
    ensures IsFields(Spelled(ws, post), Words(ws))
  {
    if ws != [] {
      var rest := ws[1..];
      assert forall i :: 0 <= i < |rest| ==> rest[i] == ws[i + 1];
      SpelledHasWords(rest, post);
      assert rest != [] ==> Spelled(rest, post)[0] == rest[0].0[0];
      assert StartsWord(ws[0].0, ws[0].1, Spelled(rest, post));
      hide IsFields, StartsWord, WellSpaced;
      WordFirst(ws[0].0, ws[0].1, Spelled(rest, post), Words(rest));
    }
  }

  lemma {:induction false} TrailingSpace(s: string, fs: seq<string>, b: string)
    requires IsFields(s, fs) && All(b, IsSpace)
    ensures IsFields(s + b, fs)
    decreases |fs|
  {
    if fs != [] {
      hide IsFields, StartsWord;
      var a, r := TakeWord(s, fs);
      TrailingSpace(r, fs[1..], b);
      SpaceAfterWord(a, fs[0], r, b);
      WordFirst(a, fs[0], r + b, fs[1..]);
      assert s + b == a + fs[0] + (r + b);
    } else {
      AllAppend(s, b);
    }
  }

  lemma SpaceAfterWord(a: string, w: string, r: string, b: string)
    requires StartsWord(a, w, r) && All(b, IsSpace)
    ensures StartsWord(a, w, r + b)
  {
  }

  lemma AllAppend(a: string, b: string)
    requires All(a, IsSpace) && All(b, IsSpace)
    ensures All(a + b, IsSpace)
  {
  }

  /** White space at the end of a text adds no word. */
  lemma FieldsOfTrimmed(a: string, r: string, b: string)
    requires All(a, IsSpace) && All(b, IsSpace) && r != "" && !IsSpace(r[0])
    ensures Fields(a + r + b) == Fields(r)
  {
    FieldsAreWords(r);
    TrailingSpace(r, Fields(r), b);
    WordsAreFields(r + b, Fields(r));
    assert a + r + b == a + (r + b);
    SpanIs(a, r + b, IsSpace);
    assert (a + (r + b))[|a|..] == r + b;
    SpanIs("", r + b, IsSpace);
    assert "" + (r + b) == r + b && (r + b)[0..] == r + b;
  }

  /** Position of the first `c`, or the length. */
  function IndexOf(s: string, c: char): (n: nat)
    ensures n <= |s| && c !in s[..n] && (n < |s| ==> s[n] == c)
  {
    if s == "" || s[0] == c then 0
    else
      var n := 1 + IndexOf(s[1..], c);
      assert s[..n] == [s[0]] + s[1..][..n - 1];
      n
  }

  /** strings.Split on one character: never empty, pieces free of the separator. */
  function Split(s: string, sep: char): (ps: seq<string>)
    ensures |ps| >= 1 && forall i :: 0 <= i < |ps| ==> sep !in ps[i]
  {
    var n := IndexOf(s, sep);
    if n == |s| then [s[..n]] else [s[..n]] + Split(s[n + 1..], sep)
  }

  function Join(ps: seq<string>, sep: char): string
  {
    if ps == [] then "" else if |ps| == 1 then ps[0] else ps[0] + [sep] + Join(ps[1..], sep)
  }

  /** Splitting loses nothing. */
  lemma {:induction false} JoinSplit(s: string, sep: char)
    ensures Join(Split(s, sep), sep) == s
    decreases |s|
  {
    hide Split, IndexOf, Join;
    var n := IndexOf(s, sep);
    SplitOnce(s, sep, n);
    if n < |s| {
      var rest := s[n + 1..];
      JoinSplit(rest, sep);
      JoinCons(s[..n], Split(rest, sep), sep);
      assert s == s[..n] + [sep] + rest;
    }
  }

  lemma SplitOnce(s: string, sep: char, n: nat)
    requires n == IndexOf(s, sep)
    ensures n < |s| ==> s[n] == sep && Split(s, sep) == [s[..n]] + Split(s[n + 1..], sep)
    ensures n == |s| ==> Join(Split(s, sep), sep) == s
  {
    assert s[..|s|] == s;
    hide IndexOf;
  }

  /** The first piece ends at the first separator. */
  lemma SplitFirst(a: string, b: string, sep: char)
    requires sep !in a
    ensures Split(a + [sep] + b, sep) == [a] + Split(b, sep)
  {
    var s := a + [sep] + b;
    IndexOfIs(a, b, sep);
    assert s[..|a|] == a && s[|a| + 1..] == b;
  }

  lemma {:induction false} IndexOfIs(a: string, b: string, c: char)
    requires c !in a
    ensures IndexOf(a + [c] + b, c) == |a|
  {
    if a != "" {
      assert (a + [c] + b)[1..] == a[1..] + [c] + b && a[0] in a;
      IndexOfIs(a[1..], b, c);
    }
  }

  lemma JoinCons(p: string, ps: seq<string>, sep: char)
    requires ps != []
    ensures Join([p] + ps, sep) == p + [sep] + Join(ps, sep)
  {
    assert ([p] + ps)[1..] == ps;
  }

  /** strings.ToLower on the letters that can occur in a cluster name. */
  function Lower(s: string): (r: string)
    ensures |r| == |s|
    ensures forall i :: 0 <= i < |s| ==> !('A' <= r[i] <= 'Z')
    ensures forall i :: 0 <= i < |s| ==> r[i] == s[i] || ('A' <= s[i] <= 'Z' && r[i] as int == s[i] as int + 32)
  {
    seq(|s|, i requires 0 <= i < |s| => if 'A' <= s[i] <= 'Z' then s[i] - 'A' + 'a' else s[i])
  }

  // ---------------------------------------------------------------------------
  // Decimal notation

  function Digit(d: nat): char
    requires d < 10
  {
    "0123456789"[d]
  }

  /** fmt's %d for a number that is not negative. */
  function Decimal(n: nat): (s: string)
    ensures s != "" && All(s, IsDigit)
  {
    if n < 10 then [Digit(n)] else Decimal(n / 10) + [Digit(n % 10)]
  }

  /** strconv.Atoi on a run of digits. */
  function Value(s: string): nat
    requires All(s, IsDigit)
  {
    if s == "" then 0 else Value(s[..|s| - 1]) * 10 + (s[|s| - 1] - '0') as nat
  }

  lemma {:induction false} ValueOfDecimal(n: nat)
    ensures Value(Decimal(n)) == n
  {
    if n < 10 {
      assert Decimal(n)[..0] == "";
    } else {
      ValueOfDecimal(n / 10);
      var s := Decimal(n);
      assert s[..|s| - 1] == Decimal(n / 10);
      assert s[|s| - 1] == Digit(n % 10);
    }
  }

  /** Most significant digit first, and no leading zero. */
  lemma {:induction false} DecimalLeads(n: nat)
    requires n > 0
    ensures Decimal(n)[0] != '0'
  {
    if n >= 10 {
      DecimalLeads(n / 10);
    }
  }

  lemma DecimalExamples()
    ensures Decimal(0) == "0" && Decimal(7) == "7" && Decimal(10) == "10" && Decimal(305) == "305"
  {
    assert Decimal(3) == "3" && Decimal(30) == "30";
  }

  lemma DecimalInjective(m: nat, n: nat)
    requires Decimal(m) == Decimal(n)
    ensures m == n
  {
    ValueOfDecimal(m);
    ValueOfDecimal(n);
  }
}
