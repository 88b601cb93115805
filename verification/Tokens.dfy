/**
 Text made of literals and `$(NAME)` references, shared by the makefile evaluator and the manifest
 differ. A token list says where the references are; `Render` gives the text the code works on. Plain
 literals hold no `$(` and do not end in `$`; the safe literals of the evaluator allow a little more.
 */
module Tokens {
  import opened Text

  datatype Token = Lit(text: string) | Ref(name: string)

  function Pattern(name: string): string {
    "$(" + name + ")"
  }

  function Show(t: Token): string {
    match t
    case Lit(text) => text
    case Ref(name) => Pattern(name)
  }

  function Render(ts: seq<Token>): string {
    if ts == [] then "" else Show(ts[0]) + Render(ts[1..])
  }

  predicate PlainName(name: string) {
    '$' !in name && '(' !in name && ')' !in name
  }

  /** Text that holds no `$(` and does not end in `$`, so that none can arise at its end either. */
  predicate PlainText(s: string) {
    s == "" || ((s[0] == '$' ==> |s| > 1 && s[1] != '(') && PlainText(s[1..]))
  }

  predicate PlainToken(t: Token) {
    match t
    case Lit(text) => PlainText(text)
    case Ref(name) => PlainName(name)
  }

  predicate Plain(ts: seq<Token>) {
    forall t :: t in ts ==> PlainToken(t)
  }

  lemma {:induction false} RenderConcat(a: seq<Token>, b: seq<Token>)
    ensures Render(a + b) == Render(a) + Render(b)
  {
    if a == [] {
      assert a + b == b;
    } else {
      assert (a + b)[1..] == a[1..] + b;
      RenderConcat(a[1..], b);
    }
  }

  /** Whatever follows `text`, no occurrence of `pat` starts inside it. */
  ghost predicate PassesOver(text: string, pat: string) {
    forall rest: string, q: nat :: q < |text| ==> !(pat <= text[q..] + rest)
  }

  lemma {:induction false} ReplacePast(text: string, rest: string, pat: string, to: string, all: bool)
    requires pat != "" && PassesOver(text, pat)
    ensures Replace(text + rest, pat, to, all) == text + Replace(rest, pat, to, all)
  {
    if text == "" {
      assert text + rest == rest;
    } else {
      assert text[0..] + rest == text + rest;
      forall more: string, q: nat | q < |text[1..]| ensures !(pat <= text[1..][q..] + more) {
        assert text[1..][q..] == text[q + 1..];
      }
      assert (text + rest)[1..] == text[1..] + rest;
      ReplacePast(text[1..], rest, pat, to, all);
    }
  }

  lemma {:induction false} PlainTextAt(s: string, q: nat)
    requires PlainText(s) && q < |s| && s[q] == '$'
    ensures q + 1 < |s| && s[q + 1] != '('
  {
    if q > 0 {
      PlainTextAt(s[1..], q - 1);
    }
  }

  lemma PlainTextPasses(s: string, pat: string)
    requires PlainText(s) && "$(" <= pat
    ensures PassesOver(s, pat)
  {
    forall rest: string, q: nat | q < |s| ensures !(pat <= s[q..] + rest) {
      var u := s[q..] + rest;
      assert u[0] == s[q] && pat[0] == '$' && pat[1] == '(';
      if s[q] == '$' {
        PlainTextAt(s, q);
        assert u[1] == s[q + 1];
      }
    }
  }

  lemma {:induction false} DollarFreeIsPlain(s: string)
    requires '$' !in s
    ensures PlainText(s)
  {
    if s == "" {
    } else {
      assert s[0] in s;
      DollarFreeIsPlain(s[1..]);
    }
  }

  lemma PatternIsNotPrefix(n: string, m: string, rest: string)
    requires PlainName(n) && PlainName(m) && n != m
    ensures !(Pattern(n) <= Pattern(m) + rest)
  {
    var u := Pattern(m) + rest;
    if |n| < |m| {
      assert Pattern(n)[2 + |n|] == ')' && u[2 + |n|] == m[|n|];
    } else if |m| < |n| {
      assert Pattern(n)[2 + |m|] == n[|m|] && u[2 + |m|] == ')';
    } else {
      var i :| 0 <= i < |n| && n[i] != m[i];
      assert Pattern(n)[2 + i] == n[i] && u[2 + i] == m[i];
    }
  }

  /** A different reference is stepped over whole. */
  lemma ReferencePasses(m: string, n: string)
    requires PlainName(n) && PlainName(m) && n != m
    ensures PassesOver(Pattern(m), Pattern(n))
  {
    forall rest: string, q: nat | q < |Pattern(m)| ensures !(Pattern(n) <= Pattern(m)[q..] + rest) {
      if q == 0 {
        PatternIsNotPrefix(n, m, rest);
      } else {
        assert (Pattern(m)[q..] + rest)[0] == Pattern(m)[q] == ("(" + m + ")")[q - 1];
      }
    }
  }

  lemma ReplaceAtReference(n: string, rest: string, to: string, all: bool)
    ensures Replace(Pattern(n) + rest, Pattern(n), to, all)
         == to + if all then Replace(rest, Pattern(n), to, all) else rest
  {
  }

  lemma PlainTokenPasses(t: Token, n: string)
    requires PlainToken(t) && PlainName(n) && t != Ref(n)
    ensures PassesOver(Show(t), Pattern(n))
  {
    match t
    case Lit(text) => PlainTextPasses(text, Pattern(n));
    case Ref(m) => ReferencePasses(m, n);
  }

  /** Tokens in which the pattern never starts are stepped over whole. */
  lemma {:induction false} ReplacePastTokens(ts: seq<Token>, n: string, rest: string, to: string, all: bool)
    requires forall t :: t in ts ==> PassesOver(Show(t), Pattern(n))
    ensures Replace(Render(ts) + rest, Pattern(n), to, all) == Render(ts) + Replace(rest, Pattern(n), to, all)
  {
    if ts == [] {
      assert Render(ts) + rest == rest;
    } else {
      var more := Render(ts[1..]) + rest;
      assert Render(ts) + rest == Show(ts[0]) + more;
      ReplacePast(Show(ts[0]), more, Pattern(n), to, all);
      ReplacePastTokens(ts[1..], n, rest, to, all);
    }
  }
}
