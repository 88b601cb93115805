/**
 The other half of the expansion law: a literal that is not safe makes `get` go wrong. For each such
 literal there is a makefile with a variable made of it and of references, all other variables
 well-formed, for which `get` does not return the simultaneous expansion.
 */
module Literals {
  import opened Text
  import opened Tokens
  import opened Reachability
  import opened Variables
  import opened Expansion

  /** A value built around one literal: everything else in it is a reference. */
  predicate Around(ts: seq<Token>, lit: string) {
    Lit(lit) in ts && forall t :: t in ts ==> t == Lit(lit) || (t.Ref? && ReferenceName(t.name))
  }

  /** The makefile written by these tokens, well-formed or not. */
  ghost predicate Writes(vars: Vars, tv: TokenVars) {
    vars.Keys == tv.Keys && forall k :: k in tv ==> Texts(vars[k].values, tv[k])
  }

  predicate Texts(values: seq<string>, tvs: seq<seq<Token>>) {
    |values| == |tvs| && forall i :: 0 <= i < |tvs| ==> values[i] == Render(tvs[i])
  }

  /** The variable `a` has one value, made of `lit` and references; all others are well-formed. */
  ghost predicate Holds(tv: TokenVars, a: string, lit: string) {
    && a in tv && |tv[a]| == 1 && Around(tv[a][0], lit)
    && forall k :: k in tv && k != a ==> forall i :: 0 <= i < |tv[k]| ==> WellFormed(tv[k][i])
  }

  /** `get` does not return the simultaneous expansion of `a`, though both end. */
  ghost predicate GoesWrong(vars: Vars, tv: TokenVars, a: string, depth: nat) {
    && Writes(vars, tv) && a in tv && Grounded(RefGraph(vars), a, depth) && Grounded(TokenGraph(tv), a, depth)
    && Expand(vars, a, depth) != Render(ExpandTokens(tv, a, depth))
  }

  // ---- Makefiles of values without references ----

  /** Among such variables, the rewriting of the value `ts` is not its substitution. */
  ghost predicate Misrewritten(texts: map<string, string>, ts: seq<Token>)
    requires DollarFree(texts)
  {
    var vars, tv, text := TextVars(texts), TextTokens(texts), Render(ts);
    && TokensReady(tv, ts, 1) && Ready(vars, Matches(text), 1)
    && Rewrite(vars, Matches(text), text, 1) != Render(Substitute(tv, ts, 1))
  }

  function TextVars(texts: map<string, string>): Vars {
    map k | k in texts :: Variable([texts[k]], Set)
  }

  function TextTokens(texts: map<string, string>): TokenVars {
    map k | k in texts :: [[Lit(texts[k])]]
  }

  predicate DollarFree(texts: map<string, string>) {
    forall n :: n in texts ==> '$' !in texts[n]
  }

  /** All references are to names of the map. */
  predicate Known(ts: seq<Token>, texts: map<string, string>) {
    forall t :: t in ts && t.Ref? ==> t.name in texts
  }

  lemma TextsRender(texts: map<string, string>)
    requires DollarFree(texts)
    ensures Renders(TextVars(texts), TextTokens(texts))
    ensures forall n :: n in texts ==> Matches(texts[n]) == []
  {
    var vars, tv := TextVars(texts), TextTokens(texts);
    forall n | n in texts ensures AreTexts(vars[n].values, tv[n]) && Matches(texts[n]) == [] {
      DollarFreeIsSafe(texts[n]);
      assert texts[n] + "" == texts[n];
      MatchesPastLiteral(texts[n], "");
      assert Render([Lit(texts[n])]) == texts[n] + Render([]);
    }
  }

  /** No name looks up another. */
  lemma TextsGrounded(texts: map<string, string>, k: string)
    requires DollarFree(texts)
    ensures Grounded(RefGraph(TextVars(texts)), k, 1) && Grounded(TokenGraph(TextTokens(texts)), k, 1)
  {
    TextsRender(texts);
    GraphsAgree(TextVars(texts), TextTokens(texts));
    assert k in texts ==> RefGraph(TextVars(texts))[k] == {};
  }

  lemma OneLiteral(s: string)
    ensures Render([Lit(s)]) == s
  {
    assert [Lit(s)][1..] == [] && s + "" == s;
  }

  lemma OneReference(n: string)
    ensures Render([Ref(n)]) == Pattern(n)
  {
    assert [Ref(n)][1..] == [] && Pattern(n) + "" == Pattern(n);
  }

  lemma TokensExpand(texts: map<string, string>, k: string)
    requires k in texts && Grounded(TokenGraph(TextTokens(texts)), k, 1)
    ensures ExpandTokens(TextTokens(texts), k, 1) == [Lit(texts[k])]
  {
    SubstituteLiteral(TextTokens(texts), texts[k], 0);
  }

  lemma SubstituteLiteral(tv: TokenVars, s: string, depth: nat)
    ensures TokensReady(tv, [Lit(s)], depth) && Substitute(tv, [Lit(s)], depth) == [Lit(s)]
  {
    assert [Lit(s)][1..] == [];
  }

  /** Every defined name is expanded at once to its text. */
  lemma TextsExpand(texts: map<string, string>, k: string)
    requires DollarFree(texts) && k in texts
    ensures Grounded(RefGraph(TextVars(texts)), k, 1) && Grounded(TokenGraph(TextTokens(texts)), k, 1)
    ensures Expand(TextVars(texts), k, 1) == texts[k]
    ensures ExpandTokens(TextTokens(texts), k, 1) == [Lit(texts[k])]
  {
    TextsRender(texts);
    TextsGrounded(texts, k);
    ExpandIsSubstitution(TextVars(texts), TextTokens(texts), k, 1);
    TokensExpand(texts, k);
    OneLiteral(texts[k]);
  }

  lemma {:induction false} DollarFreeIsSafe(s: string)
    requires '$' !in s
    ensures SafeLiteral(s)
  {
    if s == "" {
    } else {
      assert s[0] in s;
      DollarFreeIsSafe(s[1..]);
    }
  }

  // ---- A literal that holds a whole match ----

  lemma {:induction false} MatchOccurs(s: string, m: string)
    requires m in Matches(s)
    ensures Contains(s, m)
    decreases |s|
  {
    var n := MatchLength(s);
    if n > 0 && m == s[..n] {
      assert s[0..] == s;
    } else {
      var k := if n > 0 then n else 1;
      MatchOccurs(s[k..], m);
      var i :| 0 <= i <= |s[k..]| && m <= s[k..][i..];
      assert s[k..][i..] == s[k + i..];
    }
  }

  lemma {:induction false} DeletingNeverLengthens(s: string, pat: string)
    requires pat != ""
    ensures |Replace(s, pat, "", false)| <= |s|
  {
    if !(pat <= s) && s != "" {
      DeletingNeverLengthens(s[1..], pat);
    }
  }

  lemma {:induction false} DeletionsNeverLengthen(name: string, matches: seq<string>, copy: string)
    requires Ready(TextVars(map[name := ""]), matches, 1)
    ensures |Rewrite(TextVars(map[name := ""]), matches, copy, 1)| <= |copy|
  {
    if matches == [] {
    } else {
      var vars := TextVars(map[name := ""]);
      var next := RewriteOne(vars, matches[0], copy, 1);
      TextsExpand(map[name := ""], name);
      DeletingNeverLengthens(copy, matches[0]);
      DeletionsNeverLengthen(name, matches[1..], next);
    }
  }

  lemma AllReady(texts: map<string, string>, matches: seq<string>)
    requires DollarFree(texts) && forall m :: m in matches ==> m != ""
    ensures Ready(TextVars(texts), matches, 1)
  {
    forall m | m in matches ensures ReadyMatch(TextVars(texts), m, 1) {
      TextsGrounded(texts, RefName(m));
    }
  }

  /** The scan finds a reference in it, which is expanded though it stands in a literal. */
  lemma MatchInLiteral(lit: string) returns (texts: map<string, string>, ts: seq<Token>)
    requires Matches(lit) != []
    ensures DollarFree(texts) && Around(ts, lit) && Known(ts, texts) && Misrewritten(texts, ts)
  {
    var matches := Matches(lit);
    var name := RefName(matches[0]);
    texts, ts := map[name := ""], [Lit(lit)];
    TextsRender(texts);
    TextsExpand(texts, name);
    assert ts[1..] == [] && Render(ts) == lit + "" == lit;
    AllReady(texts, matches);
    MatchOccurs(lit, matches[0]);
    DeletingShortens(lit, matches[0]);
    DeletionsNeverLengthen(name, matches[1..], RewriteOne(TextVars(texts), matches[0], lit, 1));
    assert Substitute(TextTokens(texts), ts, 1) == ts;
  }

  // ---- A literal that leaves a reference open ----

  /** A `$(` at the front that neither closes in the text nor meets a newline. */
  predicate OpenStart(s: string) {
    "$(" <= s && !(|s| > 2 && (s[2] == '\n' || Stopped(s[3..]) || MatchLength(s) > 0))
  }

  predicate Open(s: string) {
    s != "" && (OpenStart(s) || Open(s[1..]))
  }

  /** The scan from an open place runs on to the first closing parenthesis after the literal. */
  lemma {:induction false} OpenScan(s: string, i: nat, tail: string)
    requires i <= |s| && CloseAfter(s, i) == 0 && !Stopped(s[i..])
    requires |tail| > 1 && tail[|tail| - 1] == ')' && forall j :: 0 <= j < |tail| - 1 ==> tail[j] !in ")\n"
    ensures CloseAfter(s + tail, i) == |s + tail|
    decreases |s| - i
  {
    var u := s + tail;
    if i == |s| {
      assert forall j :: i <= j < |u| - 1 ==> u[j] == tail[j - i];
      CloseAfterName(u, i, |u| - 1);
    } else {
      assert s[i..][0] == s[i] == u[i] && s[i..][1..] == s[i + 1..];
      OpenScan(s, i + 1, tail);
    }
  }

  lemma OpenStartMatches(s: string, b: string)
    requires OpenStart(s) && ReferenceName(b)
    ensures MatchLength(s + Pattern(b)) == |s| + |b| + 3
  {
    var tail := Pattern(b);
    var u := s + tail;
    assert u[0] == s[0] && u[1] == s[1];
    assert forall j :: 0 <= j < |tail| - 1 ==> tail[j] == ("$(" + b)[j];
    if |s| == 2 {
      assert u[2] == '$';
      assert forall j :: 3 <= j < |u| - 1 ==> u[j] == tail[j - 2];
      CloseAfterName(u, 3, |u| - 1);
    } else {
      assert u[2] == s[2];
      OpenScan(s, 3, tail);
    }
  }

  /** With a reference after it, an open literal swallows the reference: there is one match, from an open place on. */
  lemma {:induction false} OpenSwallows(s: string, b: string) returns (q: nat)
    requires Matches(s) == [] && Open(s) && ReferenceName(b)
    ensures q < |s| && Matches(s + Pattern(b)) == [(s + Pattern(b))[q..]]
  {
    var u := s + Pattern(b);
    if OpenStart(s) {
      q := 0;
      OpenStartMatches(s, b);
      assert u[..|u|] == u && u[0..] == u && u[|u|..] == "";
    } else {
      q := OpenSwallows(s[1..], b);
      assert u[1..] == s[1..] + Pattern(b);
      ClosedStart(s, Pattern(b));
      DropDrop(u, 1, q);
      q := q + 1;
    }
  }

  /** A place that is not open and matches nothing matches nothing with more text either. */
  lemma ClosedStart(s: string, rest: string)
    requires s != "" && !OpenStart(s) && MatchLength(s) == 0 && s != "$"
    ensures MatchLength(s + rest) == 0
  {
    var u := s + rest;
    assert u[0] == s[0] && (|s| > 1 ==> u[1] == s[1]) && (|s| > 2 ==> u[2] == s[2]);
    if "$(" <= s && s[2] != '\n' {
      StoppedScan(s, rest, 3);
    }
  }

  /** The reference is swallowed: looked up under another name, or deleted with the open text. */
  lemma OpenLiteral(lit: string, b: string) returns (texts: map<string, string>, ts: seq<Token>)
    requires Matches(lit) == [] && Open(lit) && ReferenceName(b)
    ensures DollarFree(texts) && Around(ts, lit) && Known(ts, texts) && Misrewritten(texts, ts)
  {
    texts, ts := map[b := ""], [Lit(lit), Ref(b)];
    OpenGoesWrong(texts, lit, b);
  }

  lemma OpenGoesWrong(texts: map<string, string>, lit: string, b: string)
    requires Matches(lit) == [] && Open(lit) && ReferenceName(b)
    requires DollarFree(texts) && b in texts && texts[b] == "" && texts.Keys == {b}
    ensures Misrewritten(texts, [Lit(lit), Ref(b)])
  {
    var ts := [Lit(lit), Ref(b)];
    assert ts[1..] == [Ref(b)];
    OneReference(b);
    assert Render(ts) == lit + Pattern(b);
    OpenRewrite(texts, lit, b);
    SubstituteAround(texts, lit, b);
  }

  lemma OpenRewrite(texts: map<string, string>, lit: string, b: string)
    requires Matches(lit) == [] && Open(lit) && ReferenceName(b)
    requires DollarFree(texts) && b in texts && texts[b] == "" && texts.Keys == {b}
    ensures Ready(TextVars(texts), Matches(lit + Pattern(b)), 1)
    ensures Rewrite(TextVars(texts), Matches(lit + Pattern(b)), lit + Pattern(b), 1) != lit
  {
    var vars, u := TextVars(texts), lit + Pattern(b);
    TextsExpand(texts, b);
    var q := OpenSwallows(lit, b);
    var m := u[q..];
    AllReady(texts, [m]);
    assert [m][1..] == [];
    assert Rewrite(vars, [m], u, 1) == RewriteOne(vars, m, u, 1);
    DeletedLength(u, q);
  }

  lemma SubstituteAround(texts: map<string, string>, lit: string, b: string)
    requires DollarFree(texts) && b in texts && texts[b] == ""
    ensures TokensReady(TextTokens(texts), [Lit(lit), Ref(b)], 1)
    ensures Render(Substitute(TextTokens(texts), [Lit(lit), Ref(b)], 1)) == lit
  {
    var tv, ts := TextTokens(texts), [Lit(lit), Ref(b)];
    TextsExpand(texts, b);
    assert ts[1..] == [Ref(b)] && [Ref(b)][1..] == [];
    assert Substitute(tv, [Ref(b)], 1) == [Lit("")] + [];
    assert Substitute(tv, ts, 1) == [Lit(lit)] + [Lit("")];
    RenderConcat([Lit(lit)], [Lit("")]);
    OneLiteral(lit);
    OneLiteral("");
  }

  /** Deleting a suffix where it first occurs leaves as much as stands before it. */
  lemma {:induction false} DeletedLength(u: string, q: nat)
    requires q < |u|
    ensures |Replace(u, u[q..], "", false)| == q
  {
    if !(u[q..] <= u) {
      assert u[0..] == u;
      assert u[1..][q - 1..] == u[q..];
      DeletedLength(u[1..], q - 1);
    }
  }

  // ---- A literal that ends in a dollar sign ----

  /** Before the final dollar sign nothing can start, whatever follows, as long as no `(` follows. */
  lemma NothingStarts(lit: string, rest: string)
    requires lit != "" && MatchLength(lit) == 0 && !OpenStart(lit) && (rest == "" || rest[0] != '(')
    ensures MatchLength(lit + rest) == 0
  {
    if lit == "$" {
      assert rest != "" ==> (lit + rest)[1] == rest[0];
    } else {
      ClosedStart(lit, rest);
    }
  }

  lemma {:induction false} NothingMatched(lit: string)
    requires lit != "" && Matches(lit) == []
    ensures MatchLength(lit) == 0 && Matches(lit[1..]) == []
  {
  }

  lemma {:induction false} MatchesPastDollar(lit: string, rest: string)
    requires Matches(lit) == [] && !Open(lit) && (rest == "" || rest[0] != '(')
    ensures Matches(lit + rest) == Matches(rest)
  {
    if lit == "" {
      assert lit + rest == rest;
    } else {
      NothingMatched(lit);
      NothingStarts(lit, rest);
      assert (lit + rest)[1..] == lit[1..] + rest;
      MatchesPastDollar(lit[1..], rest);
    }
  }

  lemma {:induction false} ReplaceStep(s: string, n: string, to: string)
    requires s != "" && MatchLength(s) == 0 && ReferenceName(n)
    ensures Replace(s, Pattern(n), to, false) == [s[0]] + Replace(s[1..], Pattern(n), to, false)
  {
    if Pattern(n) <= s {
      PatternStartsMatch(n, s);
    }
  }

  lemma {:induction false} ReplacePastDollar(lit: string, n: string, rest: string, to: string)
    requires Matches(lit) == [] && !Open(lit) && ReferenceName(n) && rest != "" && rest[0] != '('
    ensures Replace(lit + rest, Pattern(n), to, false) == lit + Replace(rest, Pattern(n), to, false)
  {
    if lit == "" {
      assert lit + rest == rest;
    } else {
      NothingMatched(lit);
      NothingStarts(lit, rest);
      assert (lit + rest)[1..] == lit[1..] + rest;
      ReplaceStep(lit + rest, n, to);
      ReplacePastDollar(lit[1..], n, rest, to);
      Assoc([lit[0]], lit[1..], Replace(rest, Pattern(n), to, false));
      assert lit == [lit[0]] + lit[1..];
    }
  }

  /** Dropping the final dollar sign leaves nothing open and no match. */
  lemma {:induction false} WithoutDollar(lit: string)
    requires lit != "" && lit[|lit| - 1] == '$' && Matches(lit) == [] && !Open(lit)
    ensures Matches(lit[..|lit| - 1]) == [] && !Open(lit[..|lit| - 1])
  {
    var init := lit[..|lit| - 1];
    if init == "" {
    } else {
      assert lit[1..][..|lit| - 2] == init[1..];
      WithoutDollar(lit[1..]);
      assert init + "$" == lit;
      DroppedDollar(init);
    }
  }

  lemma DroppedDollar(init: string)
    requires init != "" && MatchLength(init + "$") == 0 && !OpenStart(init + "$")
    ensures MatchLength(init) == 0 && !OpenStart(init)
  {
    var lit := init + "$";
    assert forall i :: 0 <= i < |init| ==> lit[i] == init[i];
    if "$(" <= init {
      assert lit[..2] == init[..2];
      if |init| > 2 && init[2] != '\n' {
        assert lit[3..] == init[3..] + "$";
        StoppedBeforeDollar(init[3..]);
        StoppedScan(init, "", 3);
        assert init + "" == init;
      }
    }
  }

  lemma {:induction false} StoppedBeforeDollar(s: string)
    requires Stopped(s + "$")
    ensures Stopped(s)
  {
    if s == "" {
      assert (s + "$")[1..] == "";
    } else if s[0] != '\n' {
      assert (s + "$")[1..] == s[1..] + "$" && (s + "$")[0] == s[0];
      StoppedBeforeDollar(s[1..]);
    }
  }

  /**
   The value `lit $(b) $(c)` with b = `(c)`: the dollar sign and the expansion of `b` make a second
   `$(c)`, and the rewrite meant for the reference lands on it.
   */
  lemma TrailingDollar(lit: string, b: string, c: string) returns (texts: map<string, string>, ts: seq<Token>)
    requires lit != "" && lit[|lit| - 1] == '$' && Matches(lit) == [] && !Open(lit)
    requires ReferenceName(b) && ReferenceName(c) && b != c
    ensures DollarFree(texts) && Around(ts, lit) && Known(ts, texts) && Misrewritten(texts, ts)
  {
    texts, ts := map[b := "(" + c + ")", c := "x"], [Lit(lit), Ref(b), Ref(c)];
    assert texts[b] == "(" + c + ")" && texts[c] == "x";
    DollarGoesWrong(texts, lit, b, c);
  }

  lemma DollarGoesWrong(texts: map<string, string>, lit: string, b: string, c: string)
    requires lit != "" && lit[|lit| - 1] == '$' && Matches(lit) == [] && !Open(lit)
    requires ReferenceName(b) && ReferenceName(c) && b in texts && c in texts
    requires DollarFree(texts) && texts[b] == "(" + c + ")" && texts[c] == "x"
    ensures Misrewritten(texts, [Lit(lit), Ref(b), Ref(c)])
  {
    TextsRender(texts);
    DollarTokens(texts, lit, b, c);
    DollarMatches(lit, b, c);
    AllReady(texts, [Pattern(b), Pattern(c)]);
    DollarRewrite(texts, lit, b, c);
    DollarStays(lit, Pattern(c), texts[b] + texts[c]);
  }

  lemma DollarStays(lit: string, after: string, other: string)
    requires lit != "" && lit[|lit| - 1] == '$'
    ensures lit[..|lit| - 1] + ("x" + after) != lit + other
  {
    var n := |lit| - 1;
    assert (lit[..n] + ("x" + after))[n] == 'x' && (lit + other)[n] == lit[n];
  }

  lemma DollarTokens(texts: map<string, string>, lit: string, b: string, c: string)
    requires DollarFree(texts) && b in texts && c in texts
    ensures var ts := [Lit(lit), Ref(b), Ref(c)];
      && Render(ts) == lit + (Pattern(b) + Pattern(c))
      && TokensReady(TextTokens(texts), ts, 1)
      && Render(Substitute(TextTokens(texts), ts, 1)) == lit + (texts[b] + texts[c])
  {
    var tv, ts := TextTokens(texts), [Lit(lit), Ref(b), Ref(c)];
    TextsExpand(texts, b);
    TextsExpand(texts, c);
    assert ts[1..] == [Ref(b), Ref(c)] && ts[1..][1..] == [Ref(c)] && [Ref(c)][1..] == [];
    OneReference(c);
    var image := [Lit(lit), Lit(texts[b]), Lit(texts[c])];
    assert Substitute(tv, [Ref(c)], 1) == [Lit(texts[c])];
    assert Substitute(tv, [Ref(b), Ref(c)], 1) == [Lit(texts[b])] + [Lit(texts[c])];
    assert Substitute(tv, ts, 1) == image;
    assert image[1..] == [Lit(texts[b]), Lit(texts[c])];
    assert image[1..][1..] == [Lit(texts[c])] && [Lit(texts[c])][1..] == [];
    OneLiteral(texts[c]);
  }

  lemma DollarMatches(lit: string, b: string, c: string)
    requires Matches(lit) == [] && !Open(lit) && ReferenceName(b) && ReferenceName(c)
    ensures Matches(lit + (Pattern(b) + Pattern(c))) == [Pattern(b), Pattern(c)]
    ensures RefName(Pattern(b)) == b && RefName(Pattern(c)) == c
  {
    MatchesPastDollar(lit, Pattern(b) + Pattern(c));
    MatchesAtReference(b, Pattern(c));
    MatchesAtReference(c, "");
    assert Pattern(c) + "" == Pattern(c);
    NameOfPattern(b);
    NameOfPattern(c);
  }

  lemma DollarFirst(lit: string, b: string, c: string)
    requires Matches(lit) == [] && !Open(lit) && ReferenceName(b)
    ensures Replace(lit + (Pattern(b) + Pattern(c)), Pattern(b), "(" + c + ")", false)
         == lit + ("(" + c + ")" + Pattern(c))
  {
    ReplacePastDollar(lit, b, Pattern(b) + Pattern(c), "(" + c + ")");
    ReplaceAtReference(b, Pattern(c), "(" + c + ")", false);
  }

  lemma DollarSecond(lit: string, c: string)
    requires lit != "" && lit[|lit| - 1] == '$' && Matches(lit) == [] && !Open(lit) && ReferenceName(c)
    ensures Replace(lit + ("(" + c + ")" + Pattern(c)), Pattern(c), "x", false) == lit[..|lit| - 1] + ("x" + Pattern(c))
  {
    DollarJoins(lit, c);
    WithoutDollar(lit);
    ReplacePastDollar(lit[..|lit| - 1], c, Pattern(c) + Pattern(c), "x");
    ReplaceAtReference(c, Pattern(c), "x", false);
  }

  lemma DollarRewrite(texts: map<string, string>, lit: string, b: string, c: string)
    requires lit != "" && lit[|lit| - 1] == '$' && Matches(lit) == [] && !Open(lit)
    requires ReferenceName(b) && ReferenceName(c) && b in texts && c in texts
    requires DollarFree(texts) && texts[b] == "(" + c + ")" && texts[c] == "x"
    requires Ready(TextVars(texts), [Pattern(b), Pattern(c)], 1)
    ensures Rewrite(TextVars(texts), [Pattern(b), Pattern(c)], lit + (Pattern(b) + Pattern(c)), 1)
         == lit[..|lit| - 1] + ("x" + Pattern(c))
  {
    assert ReadyMatch(TextVars(texts), Pattern(b), 1) && ReadyMatch(TextVars(texts), Pattern(c), 1);
    NameOfPattern(b);
    NameOfPattern(c);
    TextsExpand(texts, b);
    TextsExpand(texts, c);
    DollarFirst(lit, b, c);
    DollarSecond(lit, c);
    RewriteTwo(TextVars(texts), Pattern(b), Pattern(c), lit + (Pattern(b) + Pattern(c)), 1);
  }

  lemma DollarJoins(lit: string, c: string)
    requires lit != "" && lit[|lit| - 1] == '$'
    ensures lit + ("(" + c + ")" + Pattern(c)) == lit[..|lit| - 1] + (Pattern(c) + Pattern(c))
  {
    var init := lit[..|lit| - 1];
    assert lit == init + "$";
    assert Pattern(c) == "$" + ("(" + c + ")");
  }

  // ---- Every unsafe literal ----

  lemma {:induction false} UnsafeKinds(lit: string)
    requires !SafeLiteral(lit)
    ensures Matches(lit) != [] || Open(lit) || lit[|lit| - 1] == '$'
  {
    if lit != "$" && SafeStart(lit) {
      UnsafeKinds(lit[1..]);
      if Matches(lit[1..]) != [] && MatchLength(lit) == 0 {
        assert Matches(lit) == Matches(lit[1..]);
      }
    }
  }

  lemma UnsafeLiteralMisrewritten(lit: string, b: string, c: string)
      returns (texts: map<string, string>, ts: seq<Token>)
    requires !SafeLiteral(lit) && ReferenceName(b) && ReferenceName(c) && b != c
    ensures DollarFree(texts) && Around(ts, lit) && Known(ts, texts) && Misrewritten(texts, ts)
  {
    UnsafeKinds(lit);
    if Matches(lit) != [] {
      texts, ts := MatchInLiteral(lit);
    } else if Open(lit) {
      texts, ts := OpenLiteral(lit, b);
    } else {
      texts, ts := TrailingDollar(lit, b, c);
    }
  }

  // ---- From a rewriting to `get`: the value becomes a variable of the makefile ----

  function WithVariable(texts: map<string, string>, a: string, text: string): Vars {
    TextVars(texts)[a := Variable([text], Set)]
  }

  function WithTokens(texts: map<string, string>, a: string, ts: seq<Token>): TokenVars {
    TextTokens(texts)[a := [ts]]
  }

  lemma TextTokensExpand(tv: TokenVars, k: string, text: string)
    requires k in tv && tv[k] == [[Lit(text)]]
    ensures Grounded(TokenGraph(tv), k, 1) && ExpandTokens(tv, k, 1) == [Lit(text)]
  {
    assert TokenGraph(tv)[k] == {};
    SubstituteLiteral(tv, text, 0);
  }

  /** The variable itself is not looked up, so the others are rewritten as without it. */
  lemma {:induction false} RewriteWithVariable(
      texts: map<string, string>, a: string, text: string, matches: seq<string>, copy: string)
    requires DollarFree(texts) && Ready(TextVars(texts), matches, 1) && forall m :: m in matches ==> RefName(m) != a
    ensures Ready(WithVariable(texts, a, text), matches, 1)
    ensures Rewrite(WithVariable(texts, a, text), matches, copy, 1) == Rewrite(TextVars(texts), matches, copy, 1)
  {
    var vars, more := TextVars(texts), WithVariable(texts, a, text);
    forall m | m in matches
      ensures ReadyMatch(more, m, 1) && RewriteOne(more, m, copy, 1) == RewriteOne(vars, m, copy, 1)
    {
      if RefName(m) in texts {
        TextsRender(texts);
        TextExpands(more, RefName(m), texts[RefName(m)]);
        TextExpands(vars, RefName(m), texts[RefName(m)]);
      }
    }
    if matches == [] {
    } else {
      RewriteWithVariable(texts, a, text, matches[1..], RewriteOne(vars, matches[0], copy, 1));
    }
  }

  lemma {:induction false} SubstituteWithVariable(
      texts: map<string, string>, a: string, value: seq<Token>, ts: seq<Token>)
    requires DollarFree(texts) && TokensReady(TextTokens(texts), ts, 1) && Known(ts, texts) && a !in texts
    ensures TokensReady(WithTokens(texts, a, value), ts, 1)
    ensures Substitute(WithTokens(texts, a, value), ts, 1) == Substitute(TextTokens(texts), ts, 1)
  {
    var tv, more := TextTokens(texts), WithTokens(texts, a, value);
    forall t | t in ts && t.Ref? ensures Grounded(TokenGraph(more), t.name, 1) {
      TextTokensExpand(more, t.name, texts[t.name]);
    }
    if ts == [] {
    } else {
      SubstituteWithVariable(texts, a, value, ts[1..]);
      if ts[0].Ref? {
        TextTokensExpand(tv, ts[0].name, texts[ts[0].name]);
        TextTokensExpand(more, ts[0].name, texts[ts[0].name]);
      }
    }
  }

  lemma ExpandOneTokens(tv: TokenVars, a: string, ts: seq<Token>, depth: nat)
    requires a in tv && tv[a] == [ts] && TokensReady(tv, ts, depth)
    ensures Grounded(TokenGraph(tv), a, depth + 1)
    ensures ExpandTokens(tv, a, depth + 1) == Substitute(tv, ts, depth)
  {
  }

  lemma GetGoesWrong(texts: map<string, string>, ts: seq<Token>, a: string)
    requires DollarFree(texts) && Known(ts, texts) && Misrewritten(texts, ts) && a !in texts
    requires forall m :: m in Matches(Render(ts)) ==> RefName(m) != a
    ensures GoesWrong(WithVariable(texts, a, Render(ts)), WithTokens(texts, a, ts), a, 2)
  {
    var text := Render(ts);
    var vars, tv := WithVariable(texts, a, text), WithTokens(texts, a, ts);
    forall k | k in texts ensures Texts(vars[k].values, tv[k]) { OneLiteral(texts[k]); }
    RewriteWithVariable(texts, a, text, Matches(text), text);
    ExpandOne(vars, a, text, 1);
    SubstituteWithVariable(texts, a, ts, ts);
    ExpandOneTokens(tv, a, ts, 1);
  }

  /** A name too long to be looked up by the value. */
  function LongName(n: nat): (name: string)
    ensures |name| == n && forall c :: c in name ==> c == 'A'
  {
    if n == 0 then "" else "A" + LongName(n - 1)
  }

  lemma {:induction false} DeletingAllNeverLengthens(s: string, pat: string)
    requires pat != ""
    ensures |Replace(s, pat, "", true)| <= |s|
    decreases |s|
  {
    if pat <= s {
      DeletingAllNeverLengthens(s[|pat|..], pat);
    } else if s != "" {
      DeletingAllNeverLengthens(s[1..], pat);
    }
  }

  lemma {:induction false} WithoutNeverLengthens(s: string, drop: set<char>)
    ensures |Without(s, drop)| <= |s|
  {
    if s == "" {
    } else {
      WithoutNeverLengthens(s[1..], drop);
    }
  }

  lemma LookedUpIsShort(s: string, m: string)
    requires m in Matches(s)
    ensures |RefName(m)| <= |s|
  {
    MatchOccurs(s, m);
    DeletingAllNeverLengthens(m, "$(");
    WithoutNeverLengthens(Replace(m, "$(", "", true), {')'});
  }

  /**
   Every unsafe literal makes `get` go wrong: there is a makefile with a variable made of it and of
   references, everything else in it well-formed, that is not expanded simultaneously.
   */
  lemma UnsafeLiteralGoesWrong(lit: string) returns (vars: Vars, tv: TokenVars, a: string)
    requires !SafeLiteral(lit)
    ensures ReferenceName(a) && Holds(tv, a, lit) && GoesWrong(vars, tv, a, 2)
  {
    var texts, ts := UnsafeLiteralMisrewritten(lit, "B", "C");
    a := FreshName(texts, Render(ts));
    vars, tv := WithVariable(texts, a, Render(ts)), WithTokens(texts, a, ts);
    OthersWellFormed(texts, a, ts);
    GetGoesWrong(texts, ts, a);
  }

  lemma OthersWellFormed(texts: map<string, string>, a: string, ts: seq<Token>)
    requires DollarFree(texts)
    ensures var tv := WithTokens(texts, a, ts);
      forall k :: k in texts && k != a ==> |tv[k]| == 1 && WellFormed(tv[k][0])
  {
    forall k | k in texts ensures SafeLiteral(texts[k]) { DollarFreeIsSafe(texts[k]); }
  }

  lemma FreshName(texts: map<string, string>, s: string) returns (a: string)
    ensures ReferenceName(a) && a !in texts && forall m :: m in Matches(s) ==> RefName(m) != a
  {
    var longest := Longest(texts);
    a := LongName(|s| + longest + 1);
    forall m | m in Matches(s) ensures RefName(m) != a { LookedUpIsShort(s, m); }
  }

  /** A bound on the length of the names. */
  lemma Longest(texts: map<string, string>) returns (n: nat)
    ensures forall k :: k in texts ==> |k| <= n
    decreases |texts|
  {
    if texts == map[] {
      n := 0;
    } else {
      var k :| k in texts;
      n := Longest(texts - {k});
      n := if |k| > n then |k| else n;
    }
  }

  /** The exact condition on a literal: it is safe if and only if `get` never goes wrong on a variable made of it. */
  lemma LiteralHarmlessExactlyWhenSafe(lit: string)
    ensures SafeLiteral(lit) <==> forall vars, tv, a, depth :: Holds(tv, a, lit) ==> !GoesWrong(vars, tv, a, depth)
  {
    if SafeLiteral(lit) {
      forall vars, tv, a, depth | Holds(tv, a, lit) ensures !GoesWrong(vars, tv, a, depth) {
        if GoesWrong(vars, tv, a, depth) {
          assert Renders(vars, tv);
          ExpandIsSubstitution(vars, tv, a, depth);
          assert false;
        }
      }
    } else {
      var vars, tv, a := UnsafeLiteralGoesWrong(lit);
      assert Holds(tv, a, lit) && GoesWrong(vars, tv, a, 2);
    }
  }
}
