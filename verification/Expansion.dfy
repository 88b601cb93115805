/**
 Recursive expansion of `$(NAME)` references, as `get` and `resolve_nested_variables` compute it, and
 the proof that it is simultaneous substitution.

 The code scans the *original* value for references but rewrites a *copy*, each time replacing the first
 occurrence of the reference's text. The copy already holds the expansions of the earlier references, so
 the rewrite lands on the right occurrence only because those expansions hold no defined reference.
 */
module Expansion {
  import opened Text
  import opened Tokens
  import opened Reachability
  import opened Variables

  // ---- The regular expression \$\(.+?\) ----

  /** One past the first `)` at or after `i`, or 0 when a newline or the end comes first. */
  function CloseAfter(s: string, i: nat): (n: nat)
    ensures n == 0 || i < n <= |s|
    decreases |s| - i
  {
    if i >= |s| || s[i] == '\n' then 0
    else if s[i] == ')' then i + 1
    else CloseAfter(s, i + 1)
  }

  /** The length of the match that starts `s`, 0 if there is none: at least one character, not a newline. */
  function MatchLength(s: string): (n: nat)
    ensures n <= |s|
  {
    if "$(" <= s && |s| > 2 && s[2] != '\n' then CloseAfter(s, 3) else 0
  }

  /** A match closes at the first `)` after its first character, and spans no newline. */
  predicate MatchAt(s: string, n: nat) {
    && 4 <= n <= |s| && s[0] == '$' && s[1] == '(' && s[n - 1] == ')'
    && (forall i :: 2 <= i < n ==> s[i] != '\n') && (forall i :: 3 <= i < n - 1 ==> s[i] != ')')
  }

  lemma {:induction false} ClosesAt(s: string, i: nat, n: nat)
    requires i <= |s|
    ensures n > 0 ==> (CloseAfter(s, i) == n <==>
      i < n <= |s| && s[n - 1] == ')' && forall j :: i <= j < n - 1 ==> s[j] != ')' && s[j] != '\n')
    decreases |s| - i
  {
    if i == |s| || s[i] == '\n' || s[i] == ')' {
    } else {
      ClosesAt(s, i + 1, n);
    }
  }

  /** What the scan matches, from the front of a text. */
  lemma MatchMeaning(s: string, n: nat)
    requires n > 0
    ensures MatchLength(s) == n <==> MatchAt(s, n)
  {
    assert "$("[0] == '$' && "$("[1] == '(';
    if |s| > 2 {
      assert "$(" <= s <==> s[0] == '$' && s[1] == '(';
      ClosesAt(s, 3, n);
    }
  }

  /** The texts of the successive non-overlapping matches. */
  function Matches(s: string): (r: seq<string>)
    ensures forall m :: m in r ==> m != ""
    decreases |s|
  {
    if s == "" then []
    else
      var n := MatchLength(s);
      if n > 0 then [s[..n]] + Matches(s[n..]) else Matches(s[1..])
  }

  /** The name a match looks up: every `$(` and every `)` removed. */
  function RefName(match_: string): string {
    Without(Replace(match_, "$(", "", true), {')'})
  }

  /** The name is the text between the marks: each `$(` goes, nested ones too, and each `)`. */
  lemma {:induction false} NameSteps(a: string, rest: string)
    requires '$' !in a
    ensures RefName(a) == Without(a, {')'})
    ensures RefName(a + ("$(" + rest)) == Without(a, {')'}) + RefName(rest)
  {
    StripPast(a, "");
    assert a + "" == a && Replace("", "$(", "", true) == "";
    StripPast(a, "$(" + rest);
    StripMark(rest, "$(");
    WithoutConcat(a, Replace(rest, "$(", "", true), {')'});
  }

  lemma StripMark(rest: string, mark: string)
    requires mark != ""
    ensures Replace(mark + rest, mark, "", true) == Replace(rest, mark, "", true)
  {
    assert (mark + rest)[|mark|..] == rest;
  }

  lemma StripPast(a: string, rest: string)
    requires '$' !in a
    ensures Replace(a + rest, "$(", "", true) == a + Replace(rest, "$(", "", true)
  {
    forall more: string, q: nat | q < |a| ensures !("$(" <= a[q..] + more) {
      assert (a[q..] + more)[0] == a[q] && a[q] in a && "$("[0] == '$';
    }
    ReplacePast(a, rest, "$(", "", true);
  }

  // ---- Expansion ----

  /** For each variable, the names its values look up. */
  ghost function RefGraph(vars: Vars): Graph {
    map k | k in vars :: set v, m | v in vars[k].values && m in Matches(v) :: RefName(m)
  }

  ghost predicate ReadyMatch(vars: Vars, m: string, depth: nat) {
    m != "" && Grounded(RefGraph(vars), RefName(m), depth)
  }

  /** Every lookup the matches make can be expanded within `depth` nested calls. */
  ghost predicate Ready(vars: Vars, matches: seq<string>, depth: nat) {
    forall m :: m in matches ==> ReadyMatch(vars, m, depth)
  }

  ghost predicate ReadyValues(vars: Vars, values: seq<string>, depth: nat) {
    forall v :: v in values ==> Ready(vars, Matches(v), depth)
  }

  ghost function Expand(vars: Vars, name: string, depth: nat): string
    requires name in vars && Grounded(RefGraph(vars), name, depth)
    decreases depth, 0, 0
  {
    assert forall v, m :: v in vars[name].values && m in Matches(v) ==> RefName(m) in RefGraph(vars)[name];
    Join(ResolveValues(vars, vars[name].values, depth - 1), "\n")
  }

  ghost function ResolveValues(vars: Vars, values: seq<string>, depth: nat): (r: seq<string>)
    requires ReadyValues(vars, values, depth)
    ensures |r| == |values|
    decreases depth, 2, |values|
  {
    if values == [] then []
    else [Rewrite(vars, Matches(values[0]), values[0], depth)] + ResolveValues(vars, values[1..], depth)
  }

  /** The rewriting of one value: for each match in turn, replace its first occurrence in the copy. */
  ghost function Rewrite(vars: Vars, matches: seq<string>, copy: string, depth: nat): string
    requires Ready(vars, matches, depth)
    decreases depth, 1, |matches|
  {
    if matches == [] then copy
    else Rewrite(vars, matches[1..], RewriteOne(vars, matches[0], copy, depth), depth)
  }

  ghost function RewriteOne(vars: Vars, match_: string, copy: string, depth: nat): string
    requires ReadyMatch(vars, match_, depth)
    decreases depth, 1, 0
  {
    if RefName(match_) in vars then
      Replace(copy, match_, Expand(vars, RefName(match_), depth), false)
    else copy
  }

  /** The depth bound only serves termination: any sufficient depth gives the same text. */
  lemma {:induction false} DepthDoesNotMatter(vars: Vars, name: string, d: nat, e: nat)
    requires name in vars && Grounded(RefGraph(vars), name, d) && Grounded(RefGraph(vars), name, e)
    ensures Expand(vars, name, d) == Expand(vars, name, e)
    decreases d, 0, 0
  {
    assert forall v, m :: v in vars[name].values && m in Matches(v) ==> RefName(m) in RefGraph(vars)[name];
    ValuesDepthDoesNotMatter(vars, vars[name].values, d - 1, e - 1);
  }

  lemma {:induction false} ValuesDepthDoesNotMatter(vars: Vars, values: seq<string>, d: nat, e: nat)
    requires ReadyValues(vars, values, d) && ReadyValues(vars, values, e)
    ensures ResolveValues(vars, values, d) == ResolveValues(vars, values, e)
    decreases d, 2, |values|
  {
    if values == [] {
    } else {
      RewriteDepthDoesNotMatter(vars, Matches(values[0]), values[0], d, e);
      ValuesDepthDoesNotMatter(vars, values[1..], d, e);
    }
  }

  lemma {:induction false} RewriteDepthDoesNotMatter(vars: Vars, matches: seq<string>, copy: string, d: nat, e: nat)
    requires Ready(vars, matches, d) && Ready(vars, matches, e)
    ensures Rewrite(vars, matches, copy, d) == Rewrite(vars, matches, copy, e)
    decreases d, 1, |matches|
  {
    if matches == [] {
    } else {
      assert ReadyMatch(vars, matches[0], d) && ReadyMatch(vars, matches[0], e);
      if RefName(matches[0]) in vars {
        DepthDoesNotMatter(vars, RefName(matches[0]), d, e);
      }
      RewriteDepthDoesNotMatter(vars, matches[1..], RewriteOne(vars, matches[0], copy, d), d, e);
    }
  }

  // ---- The token-level meaning ----

  /** A name the regular expression recognises as one reference and strips back to itself. */
  predicate ReferenceName(name: string) {
    PlainName(name) && name != "" && '\n' !in name
  }

  /** The scan for a closing parenthesis meets a newline first, so that it fails whatever follows. */
  predicate Stopped(s: string) {
    s != "" && (s[0] == '\n' || (s[0] != ')' && Stopped(s[1..])))
  }

  /** A reference that starts this text can neither end in it nor after it. */
  predicate SafeStart(s: string) {
    "$(" <= s ==> |s| > 2 && (s[2] == '\n' || Stopped(s[3..]))
  }

  /**
   A literal no reference can start in: it does not end in `$`, and every `$(` in it is cut off by
   a newline. Text such as `${X}`, `$@` or `$$HOME` is of this kind.
   */
  predicate SafeLiteral(s: string) {
    s == "" || (s != "$" && SafeStart(s) && SafeLiteral(s[1..]))
  }

  predicate WellFormedToken(t: Token) {
    match t
    case Lit(text) => SafeLiteral(text)
    case Ref(name) => ReferenceName(name)
  }

  predicate WellFormed(ts: seq<Token>) {
    forall t :: t in ts ==> WellFormedToken(t)
  }

  /** A makefile whose values are given as token lists. */
  type TokenVars = map<string, seq<seq<Token>>>

  ghost predicate Renders(vars: Vars, tv: TokenVars) {
    && vars.Keys == tv.Keys
    && forall k :: k in tv ==> AreTexts(vars[k].values, tv[k])
  }

  ghost predicate AreTexts(values: seq<string>, tvs: seq<seq<Token>>) {
    |values| == |tvs| && forall i :: 0 <= i < |tvs| ==> WellFormed(tvs[i]) && values[i] == Render(tvs[i])
  }

  ghost function TokenGraph(tv: TokenVars): Graph {
    map k | k in tv :: set ts, t: Token | ts in tv[k] && t in ts && t.Ref? :: t.name
  }

  ghost predicate TokensReady(tv: TokenVars, ts: seq<Token>, depth: nat) {
    forall t :: t in ts && t.Ref? ==> Grounded(TokenGraph(tv), t.name, depth)
  }

  /** All references of `ts` replaced at once by the expansions of the names they hold. */
  ghost function Substitute(tv: TokenVars, ts: seq<Token>, depth: nat): seq<Token>
    requires TokensReady(tv, ts, depth)
    decreases depth, 1, |ts|
  {
    if ts == [] then []
    else assert ts[0] in ts; Image(tv, ts[0], depth) + Substitute(tv, ts[1..], depth)
  }

  ghost function Image(tv: TokenVars, t: Token, depth: nat): seq<Token>
    requires TokensReady(tv, [t], depth)
    decreases depth, 0, 1
  {
    if t.Ref? && t.name in tv then assert t in [t]; ExpandTokens(tv, t.name, depth) else [t]
  }

  /** The values of `name`, each fully substituted, one per line. */
  ghost function ExpandTokens(tv: TokenVars, name: string, depth: nat): seq<Token>
    requires name in tv && Grounded(TokenGraph(tv), name, depth)
    decreases depth, 0, 0
  {
    assert forall ts, t: Token :: ts in tv[name] && t in ts && t.Ref? ==> t.name in TokenGraph(tv)[name];
    Lines(tv, tv[name], depth - 1)
  }

  ghost function Lines(tv: TokenVars, values: seq<seq<Token>>, depth: nat): seq<Token>
    requires forall ts :: ts in values ==> TokensReady(tv, ts, depth)
    decreases depth, 2, |values|
  {
    if values == [] then []
    else if |values| == 1 then Substitute(tv, values[0], depth)
    else Substitute(tv, values[0], depth) + [Lit("\n")] + Lines(tv, values[1..], depth)
  }

  // ---- Scanning rendered tokens finds exactly the references ----

  function Patterns(ts: seq<Token>): seq<string> {
    if ts == [] then []
    else (if ts[0].Ref? then [Pattern(ts[0].name)] else []) + Patterns(ts[1..])
  }

  lemma {:induction false} CloseAfterName(s: string, i: nat, end: nat)
    requires i <= end < |s| && s[end] == ')'
    requires forall j :: i <= j < end ==> s[j] != ')' && s[j] != '\n'
    ensures CloseAfter(s, i) == end + 1
    decreases end - i
  {
    if i < end {
      CloseAfterName(s, i + 1, end);
    }
  }

  lemma MatchLengthOfReference(n: string, rest: string)
    requires ReferenceName(n)
    ensures MatchLength(Pattern(n) + rest) == |n| + 3
  {
    var s := Pattern(n) + rest;
    assert forall i :: 0 <= i < |n| ==> s[i + 2] == n[i] && n[i] in n;
    assert forall j :: 3 <= j < |n| + 2 ==> s[j] == n[j - 2];
    CloseAfterName(s, 3, |n| + 2);
    assert s[2] == n[0];
  }

  lemma MatchesAtReference(n: string, rest: string)
    requires ReferenceName(n)
    ensures Matches(Pattern(n) + rest) == [Pattern(n)] + Matches(rest)
  {
    var s := Pattern(n) + rest;
    MatchLengthOfReference(n, rest);
    assert s[..|n| + 3] == Pattern(n) && s[|n| + 3..] == rest;
  }

  lemma {:induction false} StoppedScan(lit: string, rest: string, i: nat)
    requires i <= |lit| && Stopped(lit[i..])
    ensures CloseAfter(lit + rest, i) == 0
    decreases |lit| - i
  {
    assert lit[i..][0] == lit[i] == (lit + rest)[i] && lit[i..][1..] == lit[i + 1..];
    if lit[i] != '\n' {
      StoppedScan(lit, rest, i + 1);
    }
  }

  /** No match starts inside a safe literal, whatever follows it. */
  lemma NoMatchAtStart(lit: string, rest: string)
    requires lit != "" && SafeLiteral(lit)
    ensures MatchLength(lit + rest) == 0
  {
    var s := lit + rest;
    assert s[0] == lit[0] && (|lit| > 1 ==> s[1] == lit[1]) && (|lit| > 2 ==> s[2] == lit[2]);
    if "$(" <= lit && lit[2] != '\n' {
      StoppedScan(lit, rest, 3);
    }
  }

  lemma {:induction false} SafeSuffix(lit: string, q: nat)
    requires SafeLiteral(lit) && q <= |lit|
    ensures SafeLiteral(lit[q..])
  {
    if q == 0 {
      assert lit[0..] == lit;
    } else {
      SafeSuffix(lit[1..], q - 1);
      assert lit[1..][q - 1..] == lit[q..];
    }
  }

  lemma SafeLiteralPasses(lit: string, n: string)
    requires SafeLiteral(lit) && ReferenceName(n)
    ensures PassesOver(lit, Pattern(n))
  {
    forall rest: string, q: nat | q < |lit| ensures !(Pattern(n) <= lit[q..] + rest) {
      var u := lit[q..] + rest;
      SafeSuffix(lit, q);
      NoMatchAtStart(lit[q..], rest);
      if Pattern(n) <= u {
        PatternStartsMatch(n, u);
      }
    }
  }

  lemma PatternStartsMatch(n: string, u: string)
    requires ReferenceName(n) && Pattern(n) <= u
    ensures MatchLength(u) > 0
  {
    MatchLengthOfReference(n, u[|n| + 3..]);
    assert u == Pattern(n) + u[|n| + 3..];
  }

  lemma TokenPasses(t: Token, n: string)
    requires WellFormedToken(t) && ReferenceName(n) && t != Ref(n)
    ensures PassesOver(Show(t), Pattern(n))
  {
    match t
    case Lit(text) => SafeLiteralPasses(text, n);
    case Ref(m) => ReferencePasses(m, n);
  }

  lemma {:induction false} MatchesPastLiteral(lit: string, rest: string)
    requires SafeLiteral(lit)
    ensures Matches(lit + rest) == Matches(rest)
  {
    if lit == "" {
      assert lit + rest == rest;
    } else {
      assert (lit + rest)[1..] == lit[1..] + rest;
      NoMatchAtStart(lit, rest);
      MatchesPastLiteral(lit[1..], rest);
    }
  }

  lemma {:induction false} MatchesAreReferences(ts: seq<Token>)
    requires WellFormed(ts)
    ensures Matches(Render(ts)) == Patterns(ts)
  {
    if ts == [] {
    } else {
      assert ts[0] in ts;
      match ts[0] {
        case Lit(text) => MatchesPastLiteral(text, Render(ts[1..]));
        case Ref(n) => MatchesAtReference(n, Render(ts[1..]));
      }
      MatchesAreReferences(ts[1..]);
    }
  }

  lemma NameOfPattern(n: string)
    requires PlainName(n)
    ensures RefName(Pattern(n)) == n
  {
    var tail := n + ")";
    assert Pattern(n)[2..] == tail;
    DollarFreeIsPlain(tail);
    PlainTextPasses(tail, "$(");
    ReplacePast(tail, "", "$(", "", true);
    assert tail + "" == tail;
    assert Replace("", "$(", "", true) == "";
    assert Replace(Pattern(n), "$(", "", true) == "" + tail == tail;
    assert n + "" == n;
    WithoutConcat(n, ")", {')'});
    WithoutNothing(n, {')'});
    assert Without(")", {')'}) == "";
  }

  lemma {:induction false} PatternIffReference(ts: seq<Token>)
    ensures forall m :: m in Patterns(ts) <==> exists t :: t in ts && t.Ref? && m == Pattern(t.name)
  {
    if ts == [] {
    } else {
      PatternIffReference(ts[1..]);
      assert forall t :: t in ts <==> t == ts[0] || t in ts[1..];
    }
  }

  lemma GraphsAgree(vars: Vars, tv: TokenVars)
    requires Renders(vars, tv)
    ensures RefGraph(vars) == TokenGraph(tv)
  {
    forall k | k in tv ensures RefGraph(vars)[k] == TokenGraph(tv)[k] {
      forall n ensures n in RefGraph(vars)[k] <==> n in TokenGraph(tv)[k] {
        if n in RefGraph(vars)[k] {
          var v, m :| v in vars[k].values && m in Matches(v) && n == RefName(m);
          var i :| 0 <= i < |tv[k]| && v == vars[k].values[i];
          MatchesAreReferences(tv[k][i]);
          PatternIffReference(tv[k][i]);
          var t :| t in tv[k][i] && t.Ref? && m == Pattern(t.name);
          NameOfPattern(t.name);
        }
        if n in TokenGraph(tv)[k] {
          var ts, t: Token :| ts in tv[k] && t in ts && t.Ref? && n == t.name;
          var i :| 0 <= i < |tv[k]| && ts == tv[k][i];
          MatchesAreReferences(ts);
          PatternIffReference(ts);
          NameOfPattern(n);
          assert vars[k].values[i] in vars[k].values && Pattern(n) in Matches(vars[k].values[i]);
        }
      }
    }
  }

  // ---- Expansion is simultaneous substitution ----

  /** Nothing left to expand: every reference is to an undefined name. */
  ghost predicate Final(tv: TokenVars, ts: seq<Token>) {
    WellFormed(ts) && forall t :: t in ts && t.Ref? ==> t.name !in tv
  }

  lemma ReadyFromTokens(vars: Vars, tv: TokenVars, ts: seq<Token>, depth: nat)
    requires Renders(vars, tv) && WellFormed(ts) && TokensReady(tv, ts, depth)
    ensures Ready(vars, Patterns(ts), depth)
  {
    GraphsAgree(vars, tv);
    PatternIffReference(ts);
    forall m | m in Patterns(ts) ensures ReadyMatch(vars, m, depth) {
      var t :| t in ts && t.Ref? && m == Pattern(t.name);
      NameOfPattern(t.name);
    }
  }

  lemma FinalConcat(tv: TokenVars, a: seq<Token>, b: seq<Token>)
    requires Final(tv, a) && Final(tv, b)
    ensures Final(tv, a + b)
  {
  }

  /** One turn of the rewriting loop moves one reference from the remaining text to the final tokens. */
  lemma RewriteReference(
      vars: Vars, done: seq<Token>, n: string, image: seq<Token>, rest: string, depth: nat)
    requires WellFormed(done) && ReferenceName(n) && ReadyMatch(vars, Pattern(n), depth) && RefName(Pattern(n)) == n
    requires n in vars ==> Ref(n) !in done && Expand(vars, n, depth) == Render(image)
    requires n !in vars ==> Render(image) == Pattern(n)
    ensures RewriteOne(vars, Pattern(n), Render(done) + (Pattern(n) + rest), depth)
         == Render(done) + Render(image) + rest
  {
    Assoc(Render(done), Render(image), rest);
    if n in vars {
      forall t | t in done { TokenPasses(t, n); }
      ReplacePastTokens(done, n, Pattern(n) + rest, Render(image), false);
      ReplaceAtReference(n, rest, Render(image), false);
    }
  }

  /**
   The rewriting loop, from a copy that starts with final tokens: each replacement hits the
   reference the scan found, however often its text occurs.
   */
  lemma {:induction false} RewriteIsSubstitution(
      vars: Vars, tv: TokenVars, done: seq<Token>, ts: seq<Token>, depth: nat)
    requires Renders(vars, tv) && Final(tv, done) && WellFormed(ts) && TokensReady(tv, ts, depth)
    ensures Ready(vars, Patterns(ts), depth)
    ensures Final(tv, Substitute(tv, ts, depth))
    ensures Rewrite(vars, Patterns(ts), Render(done) + Render(ts), depth)
         == Render(done) + Render(Substitute(tv, ts, depth))
    decreases depth, 1, |ts|
  {
    ReadyFromTokens(vars, tv, ts, depth);
    if ts == [] {
    } else {
      var t, rest := ts[0], ts[1..];
      assert WellFormedToken(t);
      var image := Image(tv, t, depth);
      ImageIsFinal(vars, tv, t, depth);
      FinalConcat(tv, done, image);
      RewriteIsSubstitution(vars, tv, done + image, rest, depth);
      FinalConcat(tv, image, Substitute(tv, rest, depth));
      RenderConcat(image, Substitute(tv, rest, depth));
      RenderConcat(done, image);
      Assoc(Render(done), Render(image), Render(rest));
      Assoc(Render(done), Render(image), Render(Substitute(tv, rest, depth)));
      if t.Ref? {
        RewriteReference(vars, done, t.name, image, Render(rest), depth);
        assert Patterns(ts) == [Pattern(t.name)] + Patterns(rest);
      } else {
        assert Patterns(ts) == Patterns(rest);
      }
    }
  }

  lemma {:induction false} ImageIsFinal(vars: Vars, tv: TokenVars, t: Token, depth: nat)
    requires Renders(vars, tv) && WellFormed([t]) && TokensReady(tv, [t], depth)
    ensures Final(tv, Image(tv, t, depth))
    ensures !(t.Ref? && t.name in tv) ==> Render(Image(tv, t, depth)) == Show(t)
    ensures t.Ref? ==> RefName(Pattern(t.name)) == t.name && ReadyMatch(vars, Pattern(t.name), depth)
    ensures t.Ref? && t.name in tv ==> Expand(vars, t.name, depth) == Render(Image(tv, t, depth))
    decreases depth, 0, 1
  {
    assert t in [t];
    assert Show(t) + "" == Show(t);
    if t.Ref? {
      NameOfPattern(t.name);
      GraphsAgree(vars, tv);
      if t.name in tv {
        ExpandIsSubstitution(vars, tv, t.name, depth);
      }
    }
  }

  /**
   For every makefile of well-formed values, `get` on a defined name whose references are acyclic
   returns the simultaneous expansion, in which every remaining reference is undefined.
   */
  lemma {:induction false} ExpandIsSubstitution(vars: Vars, tv: TokenVars, name: string, depth: nat)
    requires Renders(vars, tv) && name in tv && Grounded(TokenGraph(tv), name, depth)
    ensures Grounded(RefGraph(vars), name, depth)
    ensures Expand(vars, name, depth) == Render(ExpandTokens(tv, name, depth))
    ensures Final(tv, ExpandTokens(tv, name, depth))
    decreases depth, 0, 0
  {
    GraphsAgree(vars, tv);
    assert forall ts, t: Token :: ts in tv[name] && t in ts && t.Ref? ==> t.name in TokenGraph(tv)[name];
    LinesAreSubstituted(vars, tv, vars[name].values, tv[name], depth - 1);
  }

  lemma {:induction false} ValueIsSubstituted(vars: Vars, tv: TokenVars, value: string, ts: seq<Token>, depth: nat)
    requires Renders(vars, tv) && WellFormed(ts) && value == Render(ts) && TokensReady(tv, ts, depth)
    ensures Ready(vars, Matches(value), depth)
    ensures Rewrite(vars, Matches(value), value, depth) == Render(Substitute(tv, ts, depth))
    ensures Final(tv, Substitute(tv, ts, depth))
    decreases depth, 2, 0
  {
    MatchesAreReferences(ts);
    RewriteIsSubstitution(vars, tv, [], ts, depth);
    assert Render([]) + value == value;
    assert Render([]) + Render(Substitute(tv, ts, depth)) == Render(Substitute(tv, ts, depth));
  }

  lemma {:induction false} LinesAreSubstituted(
      vars: Vars, tv: TokenVars, values: seq<string>, tvs: seq<seq<Token>>, depth: nat)
    requires Renders(vars, tv) && AreTexts(values, tvs)
    requires forall ts :: ts in tvs ==> TokensReady(tv, ts, depth)
    ensures ReadyValues(vars, values, depth)
    ensures Join(ResolveValues(vars, values, depth), "\n") == Render(Lines(tv, tvs, depth))
    ensures Final(tv, Lines(tv, tvs, depth))
    decreases depth, 3, |tvs|
  {
    if tvs == [] {
    } else {
      ValueIsSubstituted(vars, tv, values[0], tvs[0], depth);
      assert AreTexts(values[1..], tvs[1..]);
      LinesAreSubstituted(vars, tv, values[1..], tvs[1..], depth);
      assert forall v :: v in values ==> v == values[0] || v in values[1..];
      if |tvs| > 1 {
        JoinLines(tv, Substitute(tv, tvs[0], depth), Lines(tv, tvs[1..], depth));
        assert ResolveValues(vars, values, depth)[1..] == ResolveValues(vars, values[1..], depth);
      }
    }
  }

  lemma JoinLines(tv: TokenVars, first: seq<Token>, more: seq<Token>)
    requires Final(tv, first) && Final(tv, more)
    ensures Render(first + [Lit("\n")] + more) == Render(first) + "\n" + Render(more)
    ensures Final(tv, first + [Lit("\n")] + more)
  {
    var newline := [Lit("\n")];
    assert Render(newline) == "\n" + "" == "\n";
    RenderConcat(first + newline, more);
    RenderConcat(first, newline);
    FinalConcat(tv, first, newline);
    FinalConcat(tv, first + newline, more);
  }

  /**
   `get` returns the simultaneous expansion for every makefile of well-formed values and every
   defined name from which no reference cycle can be reached; as many nested calls as there are
   variables suffice.
   */
  lemma {:induction false} GetIsSimultaneousExpansion(vars: Vars, tv: TokenVars, name: string)
    requires Renders(vars, tv) && name in vars && NoCycleFrom(TokenGraph(tv), name)
    ensures Grounded(RefGraph(vars), name, |vars|) && Grounded(TokenGraph(tv), name, |vars|)
    ensures Expand(vars, name, |vars|) == Render(ExpandTokens(tv, name, |vars|))
  {
    GraphsAgree(vars, tv);
    assert TokenGraph(tv).Keys == vars.Keys;
    GroundedExactlyWhenAcyclic(TokenGraph(tv), name);
    ExpandIsSubstitution(vars, tv, name, |vars|);
  }

  /**
   For arbitrary string values, the recursion of `get` ends exactly when no cycle of the names
   found by the scan can be reached, and never nests deeper than the number of variables.
   */
  lemma {:induction false} GetEndsExactlyWhenAcyclic(vars: Vars, name: string)
    ensures Terminates(RefGraph(vars), name) <==> NoCycleFrom(RefGraph(vars), name)
    ensures Terminates(RefGraph(vars), name) ==> Grounded(RefGraph(vars), name, |vars|)
  {
    GroundedExactlyWhenAcyclic(RefGraph(vars), name);
    assert RefGraph(vars).Keys == vars.Keys;
  }

  // ---- The expanded text is a fixed point ----

  lemma {:induction false} SubstituteFinal(tv: TokenVars, ts: seq<Token>, depth: nat)
    requires Final(tv, ts)
    ensures TokensReady(tv, ts, depth) && Substitute(tv, ts, depth) == ts
  {
    if ts == [] {
    } else {
      assert ts[0] in ts;
      SubstituteFinal(tv, ts[1..], depth);
    }
  }

  lemma AbsentReference(ts: seq<Token>, n: string)
    requires WellFormed(ts) && ReferenceName(n) && Ref(n) !in ts
    ensures !Contains(Render(ts), Pattern(n))
  {
    assert Render(ts) + "" == Render(ts);
    forall t | t in ts { TokenPasses(t, n); }
    ReplacePastTokens(ts, n, "", "", false);
    if Contains(Render(ts), Pattern(n)) {
      DeletingShortens(Render(ts), Pattern(n));
    }
  }

  /**
   The text `get` returns holds no reference to a defined name, so rewriting it again, at any
   depth, leaves it as it is.
   */
  lemma {:induction false} ExpandedTextIsFinal(vars: Vars, tv: TokenVars, name: string, depth: nat, again: nat)
    requires Renders(vars, tv) && name in vars && Grounded(TokenGraph(tv), name, depth)
    ensures Grounded(RefGraph(vars), name, depth)
    ensures var text := Expand(vars, name, depth);
      && Ready(vars, Matches(text), again)
      && Rewrite(vars, Matches(text), text, again) == text
      && forall n :: n in vars && ReferenceName(n) ==> !Contains(text, Pattern(n))
  {
    ExpandIsSubstitution(vars, tv, name, depth);
    var ts := ExpandTokens(tv, name, depth);
    SubstituteFinal(tv, ts, again);
    ValueIsSubstituted(vars, tv, Render(ts), ts, again);
    forall n | n in vars && ReferenceName(n) ensures !Contains(Render(ts), Pattern(n)) {
      AbsentReference(ts, n);
    }
  }

  // ---- In-place rewriting ----

  /** Every match replaced where it stands, for arbitrary text. */
  ghost function InPlace(vars: Vars, s: string, depth: nat): string
    requires Ready(vars, Matches(s), depth)
    decreases |s|
  {
    if s == "" then ""
    else
      var n := MatchLength(s);
      if n > 0 then
        assert Matches(s) == [s[..n]] + Matches(s[n..]);
        assert s[..n] in Matches(s);
        RewriteOne(vars, s[..n], s[..n], depth) + InPlace(vars, s[n..], depth)
      else [s[0]] + InPlace(vars, s[1..], depth)
  }

  lemma {:induction false} InPlacePastLiteral(vars: Vars, lit: string, rest: string, depth: nat)
    requires SafeLiteral(lit) && Ready(vars, Matches(rest), depth)
    ensures Ready(vars, Matches(lit + rest), depth)
    ensures InPlace(vars, lit + rest, depth) == lit + InPlace(vars, rest, depth)
  {
    MatchesPastLiteral(lit, rest);
    if lit == "" {
      assert lit + rest == rest;
    } else {
      assert (lit + rest)[1..] == lit[1..] + rest;
      NoMatchAtStart(lit, rest);
      InPlacePastLiteral(vars, lit[1..], rest, depth);
      Assoc([lit[0]], lit[1..], InPlace(vars, rest, depth));
      assert [lit[0]] + lit[1..] == lit;
    }
  }

  lemma {:induction false} InPlaceAtReference(vars: Vars, n: string, rest: string, depth: nat)
    requires ReferenceName(n) && Grounded(RefGraph(vars), n, depth) && Ready(vars, Matches(rest), depth)
    ensures Ready(vars, Matches(Pattern(n) + rest), depth)
    ensures InPlace(vars, Pattern(n) + rest, depth)
         == (if n in vars then Expand(vars, n, depth) else Pattern(n)) + InPlace(vars, rest, depth)
  {
    var s := Pattern(n) + rest;
    MatchesAtReference(n, rest);
    NameOfPattern(n);
    ReplaceAtReference(n, "", if n in vars then Expand(vars, n, depth) else "", false);
    assert Pattern(n) + "" == Pattern(n);
    MatchLengthOfReference(n, rest);
    assert s[..|n| + 3] == Pattern(n) && s[|n| + 3..] == rest;
  }

  /** On well-formed text every rewrite lands where its match stands. */
  lemma {:induction false} RewriteIsInPlace(vars: Vars, tv: TokenVars, ts: seq<Token>, depth: nat)
    requires Renders(vars, tv) && WellFormed(ts) && TokensReady(tv, ts, depth)
    ensures Ready(vars, Matches(Render(ts)), depth)
    ensures InPlace(vars, Render(ts), depth) == Rewrite(vars, Matches(Render(ts)), Render(ts), depth)
  {
    ValueIsSubstituted(vars, tv, Render(ts), ts, depth);
    if ts == [] {
    } else {
      var t, rest := ts[0], ts[1..];
      assert t in ts;
      GraphsAgree(vars, tv);
      RewriteIsInPlace(vars, tv, rest, depth);
      ValueIsSubstituted(vars, tv, Render(rest), rest, depth);
      ImageIsFinal(vars, tv, t, depth);
      RenderConcat(Image(tv, t, depth), Substitute(tv, rest, depth));
      match t {
        case Lit(text) => InPlacePastLiteral(vars, text, Render(rest), depth);
        case Ref(n) => InPlaceAtReference(vars, n, Render(rest), depth);
      }
    }
  }

  /**
   With an open `$(` in a literal the rewrite can hit the wrong occurrence. When `b` expands to `$(c`, the
   text `$(b))$(c)` becomes `$(c)$(c)` and the rewrite meant for the second reference lands on the first.
   */
  lemma DanglingLiteralMisplacesRewrite(vars: Vars, b: string, c: string, depth: nat)
    requires ReferenceName(b) && ReferenceName(c) && b in vars && c in vars
    requires Grounded(RefGraph(vars), b, depth) && Grounded(RefGraph(vars), c, depth)
    requires Expand(vars, b, depth) == "$(" + c
    ensures var d := Pattern(b) + (")" + Pattern(c));
      && Ready(vars, Matches(d), depth)
      && Rewrite(vars, Matches(d), d, depth) == Expand(vars, c, depth) + Pattern(c)
      && InPlace(vars, d, depth) == Pattern(c) + Expand(vars, c, depth)
  {
    DanglingMatches(b, c);
    DanglingRewrite(vars, b, c, depth);
    DanglingInPlace(vars, b, c, depth);
  }

  lemma DanglingMatches(b: string, c: string)
    requires ReferenceName(b) && ReferenceName(c)
    ensures Matches(Pattern(b) + (")" + Pattern(c))) == [Pattern(b), Pattern(c)]
    ensures Matches(")" + Pattern(c)) == Matches(Pattern(c)) == [Pattern(c)]
    ensures RefName(Pattern(b)) == b && RefName(Pattern(c)) == c
  {
    assert Pattern(c) + "" == Pattern(c);
    MatchesAtReference(b, ")" + Pattern(c));
    MatchesPastLiteral(")", Pattern(c));
    MatchesAtReference(c, "");
    NameOfPattern(b);
    NameOfPattern(c);
  }

  lemma {:induction false} DanglingRewrite(vars: Vars, b: string, c: string, depth: nat)
    requires ReadyMatch(vars, Pattern(b), depth) && ReadyMatch(vars, Pattern(c), depth)
    requires RefName(Pattern(b)) == b && RefName(Pattern(c)) == c && b in vars && c in vars
    requires Expand(vars, b, depth) == "$(" + c
    ensures Rewrite(vars, [Pattern(b), Pattern(c)], Pattern(b) + (")" + Pattern(c)), depth)
         == Expand(vars, c, depth) + Pattern(c)
  {
    var copy := Pattern(b) + (")" + Pattern(c));
    ReplaceAtReference(b, ")" + Pattern(c), "$(" + c, false);
    Assoc("$(" + c, ")", Pattern(c));
    assert RewriteOne(vars, Pattern(b), copy, depth) == Pattern(c) + Pattern(c);
    ReplaceAtReference(c, Pattern(c), Expand(vars, c, depth), false);
    RewriteTwo(vars, Pattern(b), Pattern(c), copy, depth);
  }

  lemma RewriteTwo(vars: Vars, m: string, n: string, copy: string, depth: nat)
    requires ReadyMatch(vars, m, depth) && ReadyMatch(vars, n, depth)
    ensures Rewrite(vars, [m, n], copy, depth) == RewriteOne(vars, n, RewriteOne(vars, m, copy, depth), depth)
  {
    var first := RewriteOne(vars, m, copy, depth);
    assert [m, n][1..] == [n] && [m, n][0] == m;
    assert [n][1..] == [] && [n][0] == n;
    assert Rewrite(vars, [m, n], copy, depth) == Rewrite(vars, [n], first, depth);
    assert Rewrite(vars, [n], first, depth) == Rewrite(vars, [], RewriteOne(vars, n, first, depth), depth);
  }

  lemma DanglingInPlace(vars: Vars, b: string, c: string, depth: nat)
    requires ReferenceName(b) && ReferenceName(c) && b in vars && c in vars
    requires Grounded(RefGraph(vars), b, depth) && Grounded(RefGraph(vars), c, depth)
    requires Expand(vars, b, depth) == "$(" + c
    ensures Ready(vars, Matches(Pattern(b) + (")" + Pattern(c))), depth)
    ensures InPlace(vars, Pattern(b) + (")" + Pattern(c)), depth) == Pattern(c) + Expand(vars, c, depth)
  {
    assert Pattern(c) + "" == Pattern(c);
    InPlaceAtReference(vars, c, "", depth);
    InPlacePastLiteral(vars, ")", Pattern(c), depth);
    InPlaceAtReference(vars, b, ")" + Pattern(c), depth);
    assert InPlace(vars, "", depth) == "" && Expand(vars, c, depth) + "" == Expand(vars, c, depth);
    Assoc("$(" + c, ")", Expand(vars, c, depth));
  }

  /** A makefile with such a literal, in B. */
  const DANGLING: Vars := map[
    "A" := Variable([Pattern("B") + (")" + Pattern("C"))], Set),
    "B" := Variable(["$(C"], Set),
    "C" := Variable(["x"], Set)]

  /** `get` returns `x$(C)` for A, where expanding its references in place gives `$(C)x`. */
  lemma DanglingExample()
    ensures Grounded(RefGraph(DANGLING), "A", 2) && Expand(DANGLING, "A", 2) == "x" + Pattern("C")
    ensures Ready(DANGLING, Matches(DANGLING["A"].values[0]), 1)
    ensures InPlace(DANGLING, DANGLING["A"].values[0], 1) == Pattern("C") + "x"
  {
    DanglingExpansions();
    DanglingLiteralMisplacesRewrite(DANGLING, "B", "C", 1);
    ExpandOne(DANGLING, "A", DANGLING["A"].values[0], 1);
  }

  lemma DanglingExpansions()
    ensures Grounded(RefGraph(DANGLING), "B", 1) && Expand(DANGLING, "B", 1) == "$(C"
    ensures Grounded(RefGraph(DANGLING), "C", 1) && Expand(DANGLING, "C", 1) == "x"
  {
    TextExpands(DANGLING, "B", "$(C");
    TextExpands(DANGLING, "C", "x");
  }

  /** Several values come out one per line. */
  lemma ValuesJoinLines(vars: Vars, k: string, x: string, y: string)
    requires k in vars && vars[k].values == [x, y] && Matches(x) == [] && Matches(y) == []
    ensures Grounded(RefGraph(vars), k, 1) && Expand(vars, k, 1) == x + "\n" + y
  {
    var values := vars[k].values;
    assert RefGraph(vars)[k] == {};
    assert values[1..] == [y] && [y][1..] == [];
    assert ReadyValues(vars, values, 0) && ReadyValues(vars, [y], 0);
    assert ResolveValues(vars, [y], 0) == [y] + [];
    assert ResolveValues(vars, values, 0) == [x] + [y];
    JoinTwo(x, y, "\n");
  }

  lemma JoinTwo(x: string, y: string, sep: string)
    ensures Join([x] + [y], sep) == x + sep + y
  {
    assert ([x] + [y])[1..] == [y];
  }

  /** A variable whose value holds no match expands to it. */
  lemma TextExpands(vars: Vars, k: string, text: string)
    requires k in vars && vars[k].values == [text] && Matches(text) == []
    ensures Grounded(RefGraph(vars), k, 1) && Expand(vars, k, 1) == text
  {
    ExpandOne(vars, k, text, 0);
  }

  /** A variable with one value expands to the rewriting of that value. */
  lemma ExpandOne(vars: Vars, a: string, text: string, depth: nat)
    requires a in vars && vars[a].values == [text] && Ready(vars, Matches(text), depth)
    ensures Grounded(RefGraph(vars), a, depth + 1)
    ensures Expand(vars, a, depth + 1) == Rewrite(vars, Matches(text), text, depth)
  {
    forall y | y in RefGraph(vars)[a] ensures Grounded(RefGraph(vars), y, depth) {
      var m :| m in Matches(text) && y == RefName(m);
      assert ReadyMatch(vars, m, depth);
    }
    assert [text][1..] == [];
    assert ResolveValues(vars, [text], depth) == [Rewrite(vars, Matches(text), text, depth)] + [];
  }
}
