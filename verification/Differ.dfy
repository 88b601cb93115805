/**
 The component differ: which files of the sample manifest the component's manifests lack, which of
 theirs the sample no longer has, and the manifest text written for the missing ones.
 */
module Differ {
  import opened Prelude
  import opened Text
  import opened Tokens
  import opened Properties
  import opened Actions
  import opened ManifestGrammar
  import opened ManifestLayout
  import opened ManifestReading
  import opened Manifests

  // ---- Replacements ----

  /** A replacement map in the order its hash map happens to be iterated. */
  type Order = seq<(string, string)>

  function AsMap(order: Order): map<string, string> {
    if order == [] then map[] else AsMap(order[..|order| - 1])[order[|order| - 1].0 := order[|order| - 1].1]
  }

  /** The entries of a map: no name twice. */
  predicate Distinct(order: Order) {
    forall i, j :: 0 <= i < j < |order| ==> order[i].0 != order[j].0
  }

  function ReplaceInOrder(s: string, order: Order): string {
    if order == [] then s
    else
      var (from, to) := order[|order| - 1];
      Replace(ReplaceInOrder(s, order[..|order| - 1]), Pattern(from), to, true)
  }

  function Replaced(s: string, replacements: Option<Order>): string {
    match replacements case None => s case Some(order) => ReplaceInOrder(s, order)
  }

  method ReplaceFunc(orig: string, replacements: Option<Order>) returns (r: string)
    ensures r == Replaced(orig, replacements)
  {
    if replacements.None? {
      return orig;
    }
    var order := replacements.value;
    r := orig;
    for i := 0 to |order|
      invariant r == ReplaceInOrder(orig, order[..i])
    {
      assert order[..i + 1][..i] == order[..i];
      var (from, to) := order[i];
      if i == 0 {
        r := Replace(orig, Pattern(from), to, true);
      } else {
        r := Replace(r, Pattern(from), to, true);
      }
    }
    assert order[..|order|] == order;
  }

  /** Every reference whose name is in the map replaced at once by its text. */
  function Substituted(ts: seq<Token>, m: map<string, string>): seq<Token> {
    if ts == [] then []
    else [if ts[0].Ref? && ts[0].name in m then Lit(m[ts[0].name]) else ts[0]] + Substituted(ts[1..], m)
  }

  /** The text holds no reference to `n`, and none begins at its end. */
  predicate Avoids(text: string, n: string) {
    forall i :: 0 <= i < |text| ==> !(Pattern(n) <= text[i..]) && !(text[i..] <= Pattern(n))
  }

  /** No replacement text makes up a reference that another replacement would change. */
  predicate Independent(m: map<string, string>) {
    forall a, b :: a in m && b in m && a != b ==> m[b] == Pattern(b) || Avoids(m[a], b)
  }

  predicate PlainNames(m: map<string, string>) {
    forall n :: n in m ==> PlainName(n)
  }

  /** One of the orders in which the map may be iterated. */
  predicate Enumerates(order: Order, m: map<string, string>) {
    Distinct(order) && AsMap(order) == m
  }

  lemma AvoidedIsPassed(text: string, n: string)
    requires Avoids(text, n)
    ensures PassesOver(text, Pattern(n))
  {
    forall rest: string, q: nat | q < |text| ensures !(Pattern(n) <= text[q..] + rest) {
      var tail := text[q..];
      if Pattern(n) <= tail + rest {
        PrefixOfConcat(Pattern(n), tail, rest);
      }
    }
  }

  lemma PrefixOfConcat(p: string, a: string, b: string)
    requires p <= a + b
    ensures p <= a || a <= p
  {
    if |p| <= |a| {
      assert p == (a + b)[..|p|] == a[..|p|];
    } else {
      assert a == (a + b)[..|a|] == p[..|a|];
    }
  }

  lemma PlainTextAvoids(text: string, n: string)
    requires PlainText(text)
    ensures Avoids(text, n)
  {
    forall i | 0 <= i < |text| ensures !(Pattern(n) <= text[i..]) && !(text[i..] <= Pattern(n)) {
      assert text[i..][0] == text[i] && Pattern(n)[0] == '$' && Pattern(n)[1] == '(';
      if text[i] == '$' {
        PlainTextAt(text, i);
        assert text[i..][1] == text[i + 1];
      }
    }
  }

  /** A reference is replaced where it stands, when none starts in any other token. */
  lemma {:induction false} ReplaceOneName(ts: seq<Token>, n: string, to: string)
    requires forall t :: t in ts ==> t == Ref(n) || PassesOver(Show(t), Pattern(n))
    ensures Replace(Render(ts), Pattern(n), to, true) == Render(Substituted(ts, map[n := to]))
  {
    if ts == [] {
    } else {
      var rest := Render(ts[1..]);
      assert ts[0] in ts;
      ReplaceOneName(ts[1..], n, to);
      if ts[0] == Ref(n) {
        ReplaceAtReference(n, rest, to, true);
      } else {
        ReplacePast(Show(ts[0]), rest, Pattern(n), to, true);
      }
    }
  }

  /** Replacing a text by itself changes nothing. */
  lemma {:induction false} ReplaceByItself(s: string, pat: string)
    requires pat != ""
    ensures Replace(s, pat, pat, true) == s
    decreases |s|
  {
    if s == "" {
    } else if pat <= s {
      var rest := s[|pat|..];
      Cut(s, |pat|);
      ReplaceByItself(rest, pat);
    } else {
      var rest := s[1..];
      Cut(s, 1);
      assert s[..1] == [s[0]];
      ReplaceByItself(rest, pat);
    }
  }

  lemma {:induction false} SubstituteByItself(ts: seq<Token>, n: string)
    ensures Render(Substituted(ts, map[n := Pattern(n)])) == Render(ts)
  {
    if ts == [] {
    } else {
      SubstituteByItself(ts[1..], n);
    }
  }

  /** A name not yet replaced can be replaced afterwards. */
  lemma {:induction false} SubstituteAnother(ts: seq<Token>, m: map<string, string>, n: string, to: string)
    requires n !in m
    ensures Substituted(Substituted(ts, m), map[n := to]) == Substituted(ts, m[n := to])
  {
    if ts == [] {
    } else {
      SubstituteAnother(ts[1..], m, n, to);
      var once := Substituted(ts, m);
      assert once[1..] == Substituted(ts[1..], m);
    }
  }

  lemma {:induction false} NamesOf(order: Order)
    ensures forall n :: n in AsMap(order) <==> exists i :: 0 <= i < |order| && order[i].0 == n
  {
    if order == [] {
    } else {
      var k := |order| - 1;
      NamesOf(order[..k]);
      forall n ensures n in AsMap(order) <==> exists i :: 0 <= i < |order| && order[i].0 == n {
        if n in AsMap(order[..k]) {
          var i :| 0 <= i < k && order[..k][i].0 == n;
          assert order[i].0 == n;
        }
        if i :| 0 <= i < |order| && order[i].0 == n && i < k {
          assert order[..k][i].0 == n;
        }
      }
    }
  }

  /** After some replacements every token is as before or the text of one of them. */
  lemma {:induction false} SubstitutedTokens(ts: seq<Token>, m: map<string, string>)
    ensures forall t :: t in Substituted(ts, m) ==>
      (t in ts && !(t.Ref? && t.name in m)) || exists n :: n in m && t == Lit(m[n])
  {
    if ts == [] {
    } else {
      SubstitutedTokens(ts[1..], m);
    }
  }

  /** In what earlier replacements left, a name starts only at its own references. */
  lemma EarlierTextsPass(ts: seq<Token>, m: map<string, string>, n: string)
    requires Plain(ts) && PlainName(n) && n !in m && forall k :: k in m ==> Avoids(m[k], n)
    ensures forall t :: t in Substituted(ts, m) ==> t == Ref(n) || PassesOver(Show(t), Pattern(n))
  {
    SubstitutedTokens(ts, m);
    forall t | t in Substituted(ts, m) && t != Ref(n) ensures PassesOver(Show(t), Pattern(n)) {
      if t in ts {
        PlainTokenPasses(t, n);
      } else {
        var k :| k in m && t == Lit(m[k]);
        AvoidedIsPassed(m[k], n);
      }
    }
  }

  /** On text of literals and references, replacing name by name is replacing all names at once. */
  lemma {:induction false} ReplacementIsSimultaneous(ts: seq<Token>, order: Order)
    requires Plain(ts) && Distinct(order) && PlainNames(AsMap(order)) && Independent(AsMap(order))
    ensures ReplaceInOrder(Render(ts), order) == Render(Substituted(ts, AsMap(order)))
  {
    if order == [] {
      SubstituteNothing(ts);
    } else {
      var k := |order| - 1;
      var init, n, to := order[..k], order[k].0, order[k].1;
      var m := AsMap(init);
      NamesOf(init);
      assert AsMap(order) == m[n := to] && n !in m;
      IndependentBefore(m, n, to);
      ReplacementIsSimultaneous(ts, init);
      if to == Pattern(n) {
        ReplaceByItself(Render(Substituted(ts, m)), Pattern(n));
        SubstituteByItself(Substituted(ts, m), n);
      } else {
        EarlierTextsPass(ts, m, n);
        ReplaceOneName(Substituted(ts, m), n, to);
      }
      SubstituteAnother(ts, m, n, to);
    }
  }

  lemma IndependentBefore(m: map<string, string>, n: string, to: string)
    requires n !in m && PlainNames(m[n := to]) && Independent(m[n := to])
    ensures PlainNames(m) && Independent(m) && PlainName(n)
    ensures to != Pattern(n) ==> forall k :: k in m ==> Avoids(m[k], n)
  {
    var all := m[n := to];
    assert forall k :: k in m ==> k in all && all[k] == m[k];
    assert n in all && all[n] == to;
    forall a, b | a in m && b in m && a != b ensures m[b] == Pattern(b) || Avoids(m[a], b) {
      assert a in all && b in all;
    }
  }

  lemma {:induction false} SubstituteNothing(ts: seq<Token>)
    ensures Substituted(ts, map[]) == ts
  {
    if ts == [] {
    } else {
      SubstituteNothing(ts[1..]);
    }
  }

  // ---- When the order of iteration matters ----

  lemma {:induction false} EnumerationExists(m: map<string, string>) returns (order: Order)
    ensures Enumerates(order, m)
    decreases |m|
  {
    if m == map[] {
      order := [];
    } else {
      var n :| n in m;
      var init := EnumerationExists(m - {n});
      NamesOf(init);
      order := init + [(n, m[n])];
      assert order[..|order| - 1] == init;
      assert AsMap(order) == (m - {n})[n := m[n]] == m;
    }
  }

  lemma {:induction false} ReplacingLength(s: string, pat: string, to: string)
    requires pat != ""
    ensures |to| >= |pat| ==> |Replace(s, pat, to, true)| >= |s|
    ensures |to| <= |pat| ==> |Replace(s, pat, to, true)| <= |s|
    decreases |s|
  {
    if s == "" {
    } else if pat <= s {
      ReplacingLength(s[|pat|..], pat, to);
    } else {
      ReplacingLength(s[1..], pat, to);
    }
  }

  /** A text that starts otherwise, or is longer or shorter, is another text. */
  lemma ReplacedFront(pat: string, to: string, rest: string, after: string)
    requires to != pat && (|to| >= |pat| ==> |after| >= |rest|) && (|to| <= |pat| ==> |after| <= |rest|)
    ensures to + after != pat + rest
  {
    assert (to + after)[..|to|] == to && (pat + rest)[..|pat|] == pat;
  }

  lemma SameTail(c: char, x: string, y: string)
    requires x != y
    ensures [c] + x != [c] + y
  {
    assert ([c] + x)[1..] == x && ([c] + y)[1..] == y;
  }

  /** Replacing what occurs by something else changes the text. */
  lemma {:induction false} ReplacingChanges(s: string, pat: string, to: string)
    requires pat != "" && to != pat && Contains(s, pat)
    ensures Replace(s, pat, to, true) != s
  {
    if pat <= s {
      var rest := s[|pat|..];
      Cut(s, |pat|);
      ReplacingLength(rest, pat, to);
      ReplacedFront(pat, to, rest, Replace(rest, pat, to, true));
    } else {
      var rest := s[1..];
      var i :| 0 <= i <= |s| && pat <= s[i..];
      assert i > 0 by {
        assert s[0..] == s;
      }
      DropDrop(s, 1, i - 1);
      ReplacingChanges(rest, pat, to);
      Cut(s, 1);
      SameTail(s[0], Replace(rest, pat, to, true), rest);
    }
  }

  /** A text in which none of the names is referred to stays as it is. */
  lemma {:induction false} ReplaceNothing(ts: seq<Token>, order: Order)
    requires forall e, t :: e in order && t in ts ==> PassesOver(Show(t), Pattern(e.0))
    ensures ReplaceInOrder(Render(ts), order) == Render(ts)
  {
    if order == [] {
    } else {
      var k := |order| - 1;
      ReplaceNothing(ts, order[..k]);
      assert order[k] in order;
      ReplaceNone(ts, order[k].0, order[k].1);
    }
  }

  lemma ReplaceNone(ts: seq<Token>, n: string, to: string)
    requires forall t :: t in ts ==> PassesOver(Show(t), Pattern(n))
    ensures Replace(Render(ts), Pattern(n), to, true) == Render(ts)
  {
    ReplacePastTokens(ts, n, "", to, true);
    assert Render(ts) + "" == Render(ts);
  }

  lemma PatternTail(n: string, k: nat)
    requires PlainName(n) && 0 < k <= |Pattern(n)|
    ensures '$' !in Pattern(n)[k..]
  {
    var inner := "(" + n + ")";
    assert Pattern(n) == "$" + inner && '$' !in inner;
    assert Pattern(n)[k..] == inner[k - 1..];
  }

  /** What completes a reference begun in the text. */
  lemma Completion(text: string, n: string) returns (rest: string)
    requires PlainName(n) && !Avoids(text, n)
    ensures '$' !in rest && Contains(text + rest, Pattern(n))
  {
    var i :| 0 <= i < |text| && (Pattern(n) <= text[i..] || text[i..] <= Pattern(n));
    var tail := text[i..];
    rest := if Pattern(n) <= tail then "" else Pattern(n)[|tail|..];
    if !(Pattern(n) <= tail) {
      PatternTail(n, |tail|);
      assert tail + rest == Pattern(n);
    }
    DropConcat(text, rest, i);
  }

  lemma DropConcat(a: string, b: string, i: nat)
    requires i <= |a|
    ensures (a + b)[i..] == a[i..] + b
  {
  }

  /** With `b` after `a` the reference made up by the text of `a` is replaced; with `b` before `a` it stays. */
  lemma LastTwoMatter(ts: seq<Token>, a: string, x: string, b: string, y: string, rest: string)
    requires PlainName(a) && PlainName(b) && a != b && '$' !in rest && ts == [Ref(a), Lit(rest)]
    requires y != Pattern(b) && Contains(x + rest, Pattern(b))
    ensures Replace(Replace(Render(ts), Pattern(a), x, true), Pattern(b), y, true)
         != Replace(Replace(Render(ts), Pattern(b), y, true), Pattern(a), x, true)
  {
    DollarFreeIsPlain(rest);
    PlainTokenPasses(ts[0], b);
    PlainTokenPasses(ts[1], b);
    PlainTokenPasses(ts[1], a);
    ReplaceNone(ts, b, y);
    ReplaceOneName(ts, a, x);
    assert ts[1..] == [Lit(rest)] && [Lit(rest)][1..] == [];
    var image := [Lit(x), Lit(rest)];
    assert Substituted([Lit(rest)], map[a := x]) == [Lit(rest)] + [];
    assert Substituted(ts, map[a := x]) == [Lit(x)] + [Lit(rest)];
    assert image[1..] == [Lit(rest)];
    assert Render([Lit(rest)]) == rest + "" == rest;
    assert Render(image) == x + rest;
    ReplacingChanges(x + rest, Pattern(b), y);
  }

  /** If the texts are not independent, two orders of the map give different results for some text. */
  lemma DependentTextsDiffer(m: map<string, string>) returns (o1: Order, o2: Order, ts: seq<Token>)
    requires PlainNames(m) && !Independent(m)
    ensures Enumerates(o1, m) && Enumerates(o2, m) && Plain(ts)
    ensures ReplaceInOrder(Render(ts), o1) != ReplaceInOrder(Render(ts), o2)
  {
    var a, b :| a in m && b in m && a != b && m[b] != Pattern(b) && !Avoids(m[a], b);
    var rest := Completion(m[a], b);
    DollarFreeIsPlain(rest);
    ts := [Ref(a), Lit(rest)];
    o1, o2 := OrdersDiffer(m, a, b, rest);
  }

  lemma OrdersDiffer(m: map<string, string>, a: string, b: string, rest: string) returns (o1: Order, o2: Order)
    requires PlainNames(m) && a in m && b in m && a != b && m[b] != Pattern(b)
    requires '$' !in rest && Contains(m[a] + rest, Pattern(b))
    ensures Enumerates(o1, m) && Enumerates(o2, m)
    ensures ReplaceInOrder(Render([Ref(a), Lit(rest)]), o1) != ReplaceInOrder(Render([Ref(a), Lit(rest)]), o2)
  {
    var ts := [Ref(a), Lit(rest)];
    var others := EnumerationExists(m - {a, b});
    DollarFreeIsPlain(rest);
    OthersReplaceNothing(others, m - {a, b}, a, rest);
    o1 := TwoMore(others, m, a, b, Render(ts));
    assert m - {b, a} == m - {a, b};
    o2 := TwoMore(others, m, b, a, Render(ts));
    LastTwoMatter(ts, a, m[a], b, m[b], rest);
  }

  lemma OthersReplaceNothing(others: Order, m: map<string, string>, a: string, rest: string)
    requires AsMap(others) == m && PlainNames(m) && a !in m && PlainName(a) && PlainText(rest)
    ensures ReplaceInOrder(Render([Ref(a), Lit(rest)]), others) == Render([Ref(a), Lit(rest)])
  {
    var ts := [Ref(a), Lit(rest)];
    NamesOf(others);
    forall e, t | e in others && t in ts ensures PassesOver(Show(t), Pattern(e.0)) {
      assert e.0 in m;
      PlainTokenPasses(t, e.0);
    }
    ReplaceNothing(ts, others);
  }

  lemma TwoMore(others: Order, m: map<string, string>, a: string, b: string, s: string) returns (order: Order)
    requires a in m && b in m && a != b && Enumerates(others, m - {a, b})
    ensures Enumerates(order, m)
    ensures ReplaceInOrder(s, order)
         == Replace(Replace(ReplaceInOrder(s, others), Pattern(a), m[a], true), Pattern(b), m[b], true)
  {
    NamesOf(others);
    var one := others + [(a, m[a])];
    order := one + [(b, m[b])];
    assert one[..|others|] == others && order[..|one|] == one;
    assert AsMap(order) == (m - {a, b})[a := m[a]][b := m[b]] == m;
  }

  /**
   The result never depends on the order in which the replacement map is iterated exactly when the
   replacement texts are independent.
   */
  lemma OrderDoesNotMatterExactlyWhen(m: map<string, string>)
    requires PlainNames(m)
    ensures Independent(m) <==> forall o1, o2, ts :: Enumerates(o1, m) && Enumerates(o2, m) && Plain(ts) ==>
      ReplaceInOrder(Render(ts), o1) == ReplaceInOrder(Render(ts), o2)
  {
    if Independent(m) {
      forall o1, o2, ts | Enumerates(o1, m) && Enumerates(o2, m) && Plain(ts)
        ensures ReplaceInOrder(Render(ts), o1) == ReplaceInOrder(Render(ts), o2)
      {
        ReplacementIsSimultaneous(ts, o1);
        ReplacementIsSimultaneous(ts, o2);
      }
    } else {
      var o1, o2, ts := DependentTextsDiffer(m);
      assert Enumerates(o1, m) && Enumerates(o2, m) && Plain(ts);
    }
  }

  /** In particular plain texts are independent: any two orders give the same result. */
  lemma OrderDoesNotMatter(m: map<string, string>, ts: seq<Token>, o1: Order, o2: Order)
    requires PlainNames(m) && (forall n :: n in m ==> PlainText(m[n])) && Plain(ts)
    requires Enumerates(o1, m) && Enumerates(o2, m)
    ensures ReplaceInOrder(Render(ts), o1) == ReplaceInOrder(Render(ts), o2)
  {
    forall a, b | a in m && b in m && a != b ensures Avoids(m[a], b) { PlainTextAvoids(m[a], b); }
    OrderDoesNotMatterExactlyWhen(m);
  }

  /** With `a` standing for `$(b)` and `b` for `x`, the text `$(a)` becomes `x` in one order and `$(b)` in the other. */
  lemma OrderMatters(a: string, b: string, x: string)
    requires PlainName(a) && PlainName(b) && a != b
    ensures ReplaceInOrder(Pattern(a), [(a, Pattern(b)), (b, x)]) == x
    ensures ReplaceInOrder(Pattern(a), [(b, x), (a, Pattern(b))]) == Pattern(b)
  {
    var e, f := (a, Pattern(b)), (b, x);
    assert [e, f][..1] == [e] && [f, e][..1] == [f] && [e][..0] == [] && [f][..0] == [];
    ReferencePasses(a, b);
    ReplaceWhole(a, Pattern(b));
    ReplaceWhole(b, x);
    ReplacePast(Pattern(a), "", Pattern(b), x, true);
    assert Pattern(a) + "" == Pattern(a);
    assert ReplaceInOrder(Pattern(a), [e]) == Pattern(b);
    assert ReplaceInOrder(Pattern(a), [f]) == Pattern(a);
  }

  lemma ReplaceWhole(n: string, to: string)
    ensures Replace(Pattern(n), Pattern(n), to, true) == to
  {
    ReplaceAtReference(n, "", to, true);
    assert Pattern(n) + "" == Pattern(n) && to + "" == to;
  }

  /** What `ReplaceFunc` returns: without a map the text itself, with one all its names replaced at once. */
  lemma ReplacedMeaning(ts: seq<Token>, order: Order, s: string)
    requires Plain(ts) && Distinct(order) && PlainNames(AsMap(order)) && Independent(AsMap(order))
    ensures Replaced(Render(ts), Some(order)) == Render(Substituted(ts, AsMap(order)))
    ensures Replaced(s, None) == s
  {
    ReplacementIsSimultaneous(ts, order);
  }

  // ---- Files by key ----

  /** A file is known by its original path, if it has one, else by its path. */
  function Key(f: File): string {
    match OriginalPathOf(f) case Some(p) => p case None => f.path
  }

  /** `name` is the value of the first property `original-path` of the file, or its path if there is none. */
  ghost predicate KnownAs(f: File, name: string) {
    if HasKey(f.properties, "original-path") then
      exists i: nat :: FirstWithKey(f.properties, "original-path", i) && f.properties[i].value == name
    else name == f.path
  }

  /** Every file is known under exactly one name. */
  lemma KnownByKey(f: File, name: string)
    ensures KnownAs(f, name) <==> Key(f) == name
  {
    FirstValueMeaning(f.properties, "original-path");
    if HasKey(f.properties, "original-path") {
      var i := FirstIndex(f.properties, "original-path");
      assert FirstWithKey(f.properties, "original-path", i);
    }
  }

  lemma {:induction false} FirstIndex(props: seq<Property>, key: string) returns (i: nat)
    requires HasKey(props, key)
    ensures FirstWithKey(props, key, i)
  {
    if props[0].key == key {
      i := 0;
    } else {
      assert forall q :: q in props <==> q == props[0] || q in props[1..];
      i := FirstIndex(props[1..], key);
      i := i + 1;
    }
  }

  function FileMap(files: seq<File>): map<string, File> {
    if files == [] then map[] else FileMap(files[..|files| - 1])[Key(files[|files| - 1]) := files[|files| - 1]]
  }

  function Keys(files: seq<File>): set<string> {
    set f | f in files :: Key(f)
  }

  lemma {:induction false} FileMapKeys(files: seq<File>)
    ensures FileMap(files).Keys == Keys(files)
  {
    if files == [] {
    } else {
      var n := |files| - 1;
      FileMapKeys(files[..n]);
      assert forall f :: f in files <==> f in files[..n] || f == files[n];
    }
  }

  function AllFiles(manifests: seq<Contents>): seq<File> {
    if manifests == [] then [] else AllFiles(manifests[..|manifests| - 1]) + manifests[|manifests| - 1].files
  }

  /** The files of all manifests, in order, and no others. */
  lemma {:induction false} AllFilesConcat(xs: seq<Contents>, ys: seq<Contents>, m: Contents)
    ensures AllFiles([]) == [] && AllFiles([m]) == m.files
    ensures AllFiles(xs + ys) == AllFiles(xs) + AllFiles(ys)
  {
    assert [m][..0] == [];
    if ys == [] {
      assert xs + ys == xs;
    } else {
      var n := |ys| - 1;
      assert (xs + ys)[..|xs + ys| - 1] == xs + ys[..n];
      AllFilesConcat(xs, ys[..n], m);
    }
  }

  // ---- Missing and removed files, by linear scan ----

  /** The files of the sample, in order, whose key no file of the manifests has. */
  function Missing(sample: seq<File>, ours: seq<File>, replacements: Option<Order>): seq<File> {
    if sample == [] then []
    else
      var f := sample[|sample| - 1];
      var before := Missing(sample[..|sample| - 1], ours, replacements);
      if exists g :: g in ours && Key(g) == Replaced(Key(f), replacements) then before else before + [f]
  }

  /** A file with an original path that is still on disk is not removed. */
  predicate StillOnDisk(f: File, onDisk: string -> bool) {
    OriginalPathOf(f).Some? && onDisk(OriginalPathOf(f).value)
  }

  /** The files of the manifests, in order, the sample lacks; one with an original path must also be gone from disk. */
  function Removed(ours: seq<File>, sample: seq<File>, replacements: Option<Order>, onDisk: string -> bool): seq<File> {
    if ours == [] then []
    else
      var f := ours[|ours| - 1];
      var before := Removed(ours[..|ours| - 1], sample, replacements, onDisk);
      if (exists g :: g in sample && Key(g) == Replaced(Key(f), replacements)) || StillOnDisk(f, onDisk)
      then before else before + [f]
  }

  lemma MissingSnoc(sample: seq<File>, f: File, ours: seq<File>, replacements: Option<Order>)
    ensures var before := Missing(sample, ours, replacements);
      Missing(sample + [f], ours, replacements)
      == if Replaced(Key(f), replacements) in Keys(ours) then before else before + [f]
  {
  }

  lemma RemovedSnoc(ours: seq<File>, f: File, sample: seq<File>, replacements: Option<Order>, onDisk: string -> bool)
    ensures var before := Removed(ours, sample, replacements, onDisk);
      Removed(ours + [f], sample, replacements, onDisk)
      == if Replaced(Key(f), replacements) in Keys(sample) || StillOnDisk(f, onDisk) then before else before + [f]
  {
    assert (ours + [f])[..|ours|] == ours;
  }

  /** Whether no file of the index has the key of `f`. */
  method IsMissing(f: File, index: map<string, File>, replacements: Option<Order>) returns (r: bool)
    ensures r <==> Replaced(Key(f), replacements) !in index
  {
    var original := GetOriginalPath(f);
    if original.Some? {
      var key := ReplaceFunc(original.value, replacements);
      r := key !in index;
    } else {
      var key := ReplaceFunc(f.path, replacements);
      r := key !in index;
    }
  }

  /** Whether, besides, the original file is gone from disk. */
  method IsRemoved(f: File, index: map<string, File>, onDisk: string -> bool, replacements: Option<Order>)
      returns (r: bool)
    ensures r <==> Replaced(Key(f), replacements) !in index && !StillOnDisk(f, onDisk)
  {
    var original := GetOriginalPath(f);
    if original.Some? {
      var key := ReplaceFunc(original.value, replacements);
      r := key !in index && !onDisk(original.value);
    } else {
      var key := ReplaceFunc(f.path, replacements);
      r := key !in index;
    }
  }

  method FindFilesMissingInManifests(sample: Contents, manifests: seq<Contents>, replacements: Option<Order>)
      returns (missing: seq<File>)
    ensures missing == Missing(sample.files, AllFiles(manifests), replacements)
  {
    var ours := AllFiles(manifests);
    var index := FileMap(ours);
    FileMapKeys(ours);
    var files := sample.files;
    missing := [];
    for i := 0 to |files|
      invariant missing == Missing(files[..i], ours, replacements)
    {
      MissingSnoc(files[..i], files[i], ours, replacements);
      TakeOneMore(files, i);
      var lacking := IsMissing(files[i], index, replacements);
      if lacking {
        missing := missing + [files[i]];
      }
    }
    assert files[..|files|] == files;
  }

  method FindRemovedFiles(
      sample: Contents, manifests: seq<Contents>, onDisk: string -> bool, replacements: Option<Order>)
      returns (removed: seq<File>)
    ensures removed == Removed(AllFiles(manifests), sample.files, replacements, onDisk)
  {
    var index := FileMap(sample.files);
    FileMapKeys(sample.files);
    var files := AllFiles(manifests);
    removed := [];
    for i := 0 to |files|
      invariant removed == Removed(files[..i], sample.files, replacements, onDisk)
    {
      RemovedSnoc(files[..i], files[i], sample.files, replacements, onDisk);
      TakeOneMore(files, i);
      var gone := IsRemoved(files[i], index, onDisk, replacements);
      if gone {
        removed := removed + [files[i]];
      }
    }
    assert files[..|files|] == files;
  }

  /** Exactly the files of the sample without a counterpart, in order and as often as they occur. */
  lemma {:induction false} MissingMeaning(sample: seq<File>, ours: seq<File>, replacements: Option<Order>, f: File)
    ensures InOrder(Missing(sample, ours, replacements), sample)
    ensures multiset(Missing(sample, ours, replacements))[f]
         == if Replaced(Key(f), replacements) in Keys(ours) then 0 else multiset(sample)[f]
  {
    if sample == [] {
    } else {
      var n := |sample| - 1;
      var init, last := sample[..n], sample[n];
      assert sample == init + [last];
      MissingMeaning(init, ours, replacements, f);
      MissingSnoc(init, last, ours, replacements);
      InOrderSnoc(Missing(init, ours, replacements), init, last);
    }
  }

  lemma MissingMembers(sample: seq<File>, ours: seq<File>, replacements: Option<Order>)
    ensures forall f ::
      f in Missing(sample, ours, replacements) <==> f in sample && Replaced(Key(f), replacements) !in Keys(ours)
  {
    var missing := Missing(sample, ours, replacements);
    forall f ensures f in missing <==> f in sample && Replaced(Key(f), replacements) !in Keys(ours) {
      MissingMeaning(sample, ours, replacements, f);
      assert f in missing <==> multiset(missing)[f] > 0;
      assert f in sample <==> multiset(sample)[f] > 0;
    }
  }

  /** Exactly the files of the manifests without a counterpart in the sample or on disk, in order and as often. */
  lemma {:induction false} RemovedMeaning(
      ours: seq<File>, sample: seq<File>, replacements: Option<Order>, onDisk: string -> bool, f: File)
    ensures InOrder(Removed(ours, sample, replacements, onDisk), ours)
    ensures multiset(Removed(ours, sample, replacements, onDisk))[f]
         == if Replaced(Key(f), replacements) in Keys(sample) || StillOnDisk(f, onDisk) then 0 else multiset(ours)[f]
  {
    if ours == [] {
    } else {
      var n := |ours| - 1;
      var init, last := ours[..n], ours[n];
      assert ours == init + [last];
      RemovedMeaning(init, sample, replacements, onDisk, f);
      RemovedSnoc(init, last, sample, replacements, onDisk);
      InOrderSnoc(Removed(init, sample, replacements, onDisk), init, last);
    }
  }

  lemma RemovedMembers(ours: seq<File>, sample: seq<File>, replacements: Option<Order>, onDisk: string -> bool)
    ensures forall f ::
      f in Removed(ours, sample, replacements, onDisk) <==>
        f in ours && Replaced(Key(f), replacements) !in Keys(sample) && !StillOnDisk(f, onDisk)
  {
    var removed := Removed(ours, sample, replacements, onDisk);
    forall f
      ensures f in removed <==> f in ours && Replaced(Key(f), replacements) !in Keys(sample) && !StillOnDisk(f, onDisk)
    {
      RemovedMeaning(ours, sample, replacements, onDisk, f);
      assert f in removed <==> multiset(removed)[f] > 0;
      assert f in ours <==> multiset(ours)[f] > 0;
    }
  }

  /** Some file of the list is known under the name. */
  ghost predicate HasFile(files: seq<File>, name: string) {
    exists g :: g in files && KnownAs(g, name)
  }

  lemma HasFileKeys(files: seq<File>, name: string)
    ensures HasFile(files, name) <==> name in Keys(files)
  {
    forall g { KnownByKey(g, name); }
    if HasFile(files, name) {
      var g :| g in files && KnownAs(g, name);
      assert Key(g) == name;
    }
    if name in Keys(files) {
      var g :| g in files && Key(g) == name;
      assert KnownAs(g, name);
    }
  }

  /**
   A file of the sample known as a text of literals and references is missing exactly when no file of
   the manifests is known under that text with the names replaced.
   */
  lemma MissingUnderReplacement(sample: seq<File>, ours: seq<File>, order: Order, f: File, ts: seq<Token>)
    requires Plain(ts) && Distinct(order) && PlainNames(AsMap(order)) && Independent(AsMap(order))
    requires f in sample && KnownAs(f, Render(ts))
    ensures f in Missing(sample, ours, Some(order)) <==> !HasFile(ours, Render(Substituted(ts, AsMap(order))))
    ensures f in Missing(sample, ours, None) <==> !HasFile(ours, Render(ts))
  {
    KnownByKey(f, Render(ts));
    ReplacedMeaning(ts, order, Render(ts));
    MissingMembers(sample, ours, Some(order));
    MissingMembers(sample, ours, None);
    HasFileKeys(ours, Render(Substituted(ts, AsMap(order))));
    HasFileKeys(ours, Render(ts));
  }

  /**
   A file of the manifests so known is removed exactly when no file of the sample is known under the
   replaced text and it has no original path that is still on disk. The disk is asked for the path as it
   stands, without replacements.
   */
  lemma RemovedUnderReplacement(
      ours: seq<File>, sample: seq<File>, order: Order, onDisk: string -> bool, f: File, ts: seq<Token>)
    requires Plain(ts) && Distinct(order) && PlainNames(AsMap(order)) && Independent(AsMap(order))
    requires f in ours && KnownAs(f, Render(ts))
    ensures f in Removed(ours, sample, Some(order), onDisk) <==>
      && !HasFile(sample, Render(Substituted(ts, AsMap(order))))
      && !(HasKey(f.properties, "original-path") && onDisk(Render(ts)))
  {
    KnownByKey(f, Render(ts));
    FirstValueMeaning(f.properties, "original-path");
    ReplacedMeaning(ts, order, Render(ts));
    RemovedMembers(ours, sample, Some(order), onDisk);
    HasFileKeys(sample, Render(Substituted(ts, AsMap(order))));
  }

  /** Without replacements and with nothing on disk, the two lists are the symmetric difference of the keys. */
  lemma SymmetricDifference(sample: seq<File>, ours: seq<File>, onDisk: string -> bool)
    requires forall p :: !onDisk(p)
    ensures Keys(Missing(sample, ours, None)) == Keys(sample) - Keys(ours)
    ensures Keys(Removed(ours, sample, None, onDisk)) == Keys(ours) - Keys(sample)
  {
    MissingMembers(sample, ours, None);
    RemovedMembers(ours, sample, None, onDisk);
  }

  // ---- The text written for missing files ----

  function EmittedLine(path: string): string {
    "file path=" + path + "\n"
  }

  function Emitted(files: seq<File>): string {
    if files == [] then "" else EmittedLine(files[0].path) + Emitted(files[1..])
  }

  /** The layout the writer uses: one bare property, no other space. */
  function EmittedEntry(path: string): Line {
    Entry(LaidAction("file", None, [LaidProperty("path", path, [Space], [], [], false)], []), LF)
  }

  function EmittedLines(files: seq<File>): seq<Line> {
    if files == [] then [] else [EmittedEntry(files[0].path)] + EmittedLines(files[1..])
  }

  lemma Glue(rest: string)
    ensures "file" + (" " + ("path" + ("=" + rest))) == "file path=" + rest
  {
  }

  lemma EmittedIsLayout(path: string, rest: string)
    ensures LineText(EmittedEntry(path), rest) == EmittedLine(path) + rest
  {
    var p := LaidProperty("path", path, [Space], [], [], false);
    var tail := "\n" + rest;
    assert PropertyText(p, tail) == "path" + ("=" + (path + tail));
    assert [p][1..] == [] && [Space][1..] == [];
    assert GapText([Space], PropertyText(p, tail)) == " " + PropertyText(p, tail);
    assert PropertiesText([p], tail) == " " + PropertyText(p, tail);
    Glue(path + tail);
    Assoc("file path=" + path, "\n", rest);
    Assoc("file path=", path, tail);
  }

  lemma {:induction false} EmittedAreLayouts(files: seq<File>)
    ensures LinesText(EmittedLines(files), "") == Emitted(files)
  {
    if files == [] {
    } else {
      EmittedAreLayouts(files[1..]);
      EmittedIsLayout(files[0].path, Emitted(files[1..]));
      assert EmittedLines(files)[1..] == EmittedLines(files[1..]);
    }
  }

  /** The action an emitted line stands for, and its file. */
  function FileAction(path: string): Action {
    Action(FileKind, "", [Property("path", path)])
  }

  function PathOnly(path: string): File {
    File(None, path, "", "", "", false, false, "", "", "", [], map[])
  }

  lemma FileActionGivesPath(path: string)
    ensures FileOf(FileAction(path)) == Some(PathOnly(path)) && Key(PathOnly(path)) == path
  {
    var p := Property("path", path);
    assert [] + [p] == [p];
    FileSnoc([], [], p);
    HashSnoc([], p);
    assert BoolOf("") == false;
    assert FileFields([], []) == PathOnly("");
  }

  lemma OneFileCollected(path: string)
    ensures Collected([FileAction(path)]) == Some(EMPTY.(files := [PathOnly(path)]))
  {
    FileActionGivesPath(path);
    CollectedOneMore([], FileAction(path));
    assert [] + [FileAction(path)] == [FileAction(path)];
    JoinedFiles([], [PathOnly(path)]);
    assert EMPTY.(files := []) == EMPTY && [] + [PathOnly(path)] == [PathOnly(path)];
  }

  lemma JoinedFiles(xs: seq<File>, ys: seq<File>)
    ensures Joined(EMPTY.(files := xs), EMPTY.(files := ys)) == EMPTY.(files := xs + ys)
  {
  }

  lemma {:induction false} EmittedGiveFiles(files: seq<File>)
    requires forall f :: f in files ==> BareText(f.path)
    ensures Collected(MeantLines(EmittedLines(files))) == Some(EMPTY.(files := PathsOnly(files)))
  {
    if files == [] {
    } else {
      var path, rest := files[0].path, MeantLines(EmittedLines(files[1..]));
      assert files[0] in files;
      EmittedGiveFiles(files[1..]);
      MeantEmitted(path);
      assert EmittedLines(files)[1..] == EmittedLines(files[1..]);
      assert MeantLines(EmittedLines(files)) == [FileAction(path)] + rest;
      CollectedConcat([FileAction(path)], rest);
      OneFileCollected(path);
      JoinedFiles([PathOnly(path)], PathsOnly(files[1..]));
    }
  }

  lemma MeantEmitted(path: string)
    requires BareText(path)
    ensures Meant(EmittedEntry(path).action) == FileAction(path)
  {
    var ps := EmittedEntry(path).action.properties;
    assert ps[1..] == [];
    CleanIsMeant(path);
    assert MeantProperties(ps) == [Property("path", path)];
    assert KindOf("file") == FileKind;
  }

  function PathsOnly(files: seq<File>): seq<File> {
    if files == [] then [] else [PathOnly(files[0].path)] + PathsOnly(files[1..])
  }

  /** A missing file the writer can express: known by a bare path that replacements leave alone. */
  predicate Writable(f: File, replacements: Option<Order>) {
    OriginalPathOf(f).None? && BareText(f.path) && Replaced(f.path, replacements) == f.path
  }

  lemma {:induction false} EmittedLinesGood(files: seq<File>)
    requires forall f :: f in files ==> BareText(f.path)
    ensures GoodLines(EmittedLines(files)) && (files != [] ==> HasItem(EmittedLines(files)))
  {
    if files == [] {
    } else {
      EmittedLinesGood(files[1..]);
      assert files[0] in files;
      assert GoodLine(EmittedEntry(files[0].path));
    }
  }

  /** The text written for writable files reads as exactly those paths. */
  lemma {:induction false} EmittedReadsBack(files: seq<File>)
    requires files != [] && forall f :: f in files ==> BareText(f.path)
    ensures ParsedString(Emitted(files)) == Read(EMPTY.(files := PathsOnly(files)))
  {
    EmittedAreLayouts(files);
    EmittedLinesGood(files);
    var d := Document(EmittedLines(files), None);
    GoodDocumentFits(d);
    ManifestRoundTrip(d);
    assert MeantDocument(d) == MeantLines(EmittedLines(files));
    EmittedGiveFiles(files);
  }

  lemma SomeIn(files: seq<File>)
    ensures files != [] ==> exists f :: f in files
  {
    if files != [] {
      assert files[0] in files;
    }
  }

  /** The replaced key of every missing file is the path of some missing file. */
  ghost predicate Covered(missing: seq<File>, replacements: Option<Order>) {
    forall f :: f in missing ==> Replaced(Key(f), replacements) in Paths(missing)
  }

  function Paths(files: seq<File>): set<string> {
    set f | f in files :: f.path
  }

  lemma {:induction false} PathsOnlyKeys(files: seq<File>)
    ensures Keys(PathsOnly(files)) == Paths(files)
  {
    if files == [] {
    } else {
      PathsOnlyKeys(files[1..]);
      FileActionGivesPath(files[0].path);
      var rest := PathsOnly(files[1..]);
      assert PathsOnly(files) == [PathOnly(files[0].path)] + rest;
      assert Keys(PathsOnly(files)) == {files[0].path} + Keys(rest);
      assert Paths(files) == {files[0].path} + Paths(files[1..]);
    }
  }

  /**
   Convergence: once the written manifest is among the manifests, nothing is missing, exactly when the
   replaced key of every missing file is the path of one of them.
   */
  lemma {:induction false} DiffConvergesExactlyWhen(
      sample: Contents, manifests: seq<Contents>, replacements: Option<Order>)
    requires var missing := Missing(sample.files, AllFiles(manifests), replacements);
      missing != [] && forall f :: f in missing ==> BareText(f.path)
    ensures var missing := Missing(sample.files, AllFiles(manifests), replacements);
      var written := ParsedString(Emitted(missing));
      && written.Read?
      && (Missing(sample.files, AllFiles(manifests + [written.value]), replacements) == [] <==>
          Covered(missing, replacements))
  {
    var ours := AllFiles(manifests);
    var missing := Missing(sample.files, ours, replacements);
    EmittedReadsBack(missing);
    var written := ParsedString(Emitted(missing)).value;
    var more := manifests + [written];
    assert more[..|more| - 1] == manifests;
    assert AllFiles(more) == ours + PathsOnly(missing);
    StillMissing(sample.files, ours, PathsOnly(missing), replacements);
    PathsOnlyKeys(missing);
  }

  /** With more files of our own, what was missing stays so unless they cover it. */
  lemma StillMissing(sample: seq<File>, ours: seq<File>, more: seq<File>, replacements: Option<Order>)
    ensures Missing(sample, ours + more, replacements) == [] <==>
      forall f :: f in Missing(sample, ours, replacements) ==> Replaced(Key(f), replacements) in Keys(more)
  {
    MissingMembers(sample, ours, replacements);
    MissingMembers(sample, ours + more, replacements);
    KeysConcat(ours, more);
    SomeIn(Missing(sample, ours + more, replacements));
    forall f | f in Missing(sample, ours, replacements) && Missing(sample, ours + more, replacements) == []
      ensures Replaced(Key(f), replacements) in Keys(more)
    {
      assert f !in Missing(sample, ours + more, replacements);
    }
  }

  lemma KeysConcat(xs: seq<File>, ys: seq<File>)
    ensures Keys(xs + ys) == Keys(xs) + Keys(ys)
  {
    assert forall f :: f in xs + ys <==> f in xs || f in ys;
  }

  /** In particular when every missing file is known by a bare path that replacements leave alone. */
  lemma {:induction false} DiffConverges(sample: Contents, manifests: seq<Contents>, replacements: Option<Order>)
    requires var missing := Missing(sample.files, AllFiles(manifests), replacements);
      missing != [] && forall f :: f in missing ==> Writable(f, replacements)
    ensures var missing := Missing(sample.files, AllFiles(manifests), replacements);
      var written := ParsedString(Emitted(missing));
      written.Read? && Missing(sample.files, AllFiles(manifests + [written.value]), replacements) == []
  {
    DiffConvergesExactlyWhen(sample, manifests, replacements);
  }

  /** And not when a file known by another original path is the only one missing. */
  lemma OriginalPathStaysMissing(f: File, original: string)
    requires OriginalPathOf(f) == Some(original) && original != f.path && BareText(f.path)
    ensures var sample := EMPTY.(files := [f]);
      && Missing([f], [], None) == [f] && ParsedString(Emitted([f])).Read?
      && Missing([f], AllFiles([ParsedString(Emitted([f])).value]), None) != []
  {
    var sample := EMPTY.(files := [f]);
    assert [f][..0] == [];
    assert Missing([f], [], None) == [f];
    DiffConvergesExactlyWhen(sample, [], None);
    assert [] + [ParsedString(Emitted([f])).value] == [ParsedString(Emitted([f])).value];
    assert f in [f];
  }

  // ---- Exactly which paths the writer can express ----

  /** What a bare match can hold. */
  lemma {:induction false} BareMatch(s: string, i: nat)
    requires i < BareLength(s)
    ensures s[i] !in " \t\n\r"
  {
    if i > 0 {
      BareMatch(s[1..], i - 1);
    }
  }

  lemma {:induction false} SkipIsSuffix(s: string)
    ensures Skip(s) == s[|s| - |Skip(s)|..]
    decreases |s|
  {
    if BlankLength(s) > 0 {
      SkipIsSuffix(s[BlankLength(s)..]);
    } else if CommentLength(s) > 0 {
      SkipIsSuffix(s[CommentLength(s)..]);
    }
  }

  lemma SuffixChars(s: string, path: string, i: nat, n: nat)
    requires s == path + "\n" && i <= |s| && n <= |s[i..]|
    ensures forall c :: c in s[i..][..n] ==> c in path || c == '\n'
  {
  }

  /** The text read as the value after the equals sign. */
  function ValueAfter(path: string): string {
    var atValue := Skip(path + "\n");
    atValue[..ValueLength(atValue)]
  }

  /** If that text cleans to the whole path, it is the path, read as a bare value. */
  lemma ValueIsPath(path: string)
    requires Clean(ValueAfter(path)) == path
    ensures ValueAfter(path) == path && CleanText(path)
  {
    var s := path + "\n";
    SkipIsSuffix(s);
    SuffixChars(s, path, |s| - |Skip(s)|, ValueLength(Skip(s)));
    WithoutNothing(ValueAfter(path), {'"', '\\'});
  }

  lemma ValueIsUnquoted(path: string)
    requires ValueAfter(path) == path && CleanText(path)
    ensures forall c :: c in path ==> c !in " \t\n\r"
  {
    var atValue := Skip(path + "\n");
    if QuotedLength(atValue) == 0 {
      forall c | c in path ensures c !in " \t\n\r" {
        var i :| 0 <= i < |path| && path[i] == c;
        assert atValue[i] == c;
        BareMatch(atValue, i);
      }
    }
  }

  lemma HashMarkIsComment(path: string)
    requires path != "" && path[0] == '#' && '\n' !in path && '\r' !in path
    ensures ValueAfter(path) == ""
  {
    var comment := Comment(path[1..], LF);
    assert path + "\n" == FillerText(comment, "");
    SkipFiller(comment, "");
    SkipSettled("");
  }

  lemma ValueIsBare(path: string)
    requires ValueAfter(path) != "" && Clean(ValueAfter(path)) == path
    ensures BareText(path)
  {
    ValueIsPath(path);
    ValueIsUnquoted(path);
    assert ' ' in " \t\n\r" && '\n' in " \t\n\r" && '\r' in " \t\n\r";
    if path[0] == '#' {
      HashMarkIsComment(path);
    }
  }

  lemma AfterKeyword(path: string)
    ensures var s := EmittedLine(path);
      && KeywordLength(s) == 4 && s[..4] == "file" && Skip(s) == s
      && NewlineLength(s) == 0 && ParseTransform(s).Fail?
      && Skip(s[4..]) == "path=" + (path + "\n")
  {
    var s, tail := EmittedLine(path), "path=" + (path + "\n");
    KeywordLengthOf("file", " " + tail);
    assert s == "file" + (" " + tail);
    assert s[4..] == FillerText(Space, tail);
    SkipFiller(Space, tail);
    SkipSettled(s);
    SkipSettled(tail);
  }

  lemma PathProperty(path: string)
    ensures var r := ParseProperty("path=" + (path + "\n"));
      if ValueAfter(path) == "" then r == Fail else r.Done? && r.value == PropertyPair("path", ValueAfter(path))
  {
    var tail := path + "\n";
    var s := "path" + ("=" + tail);
    assert s == "path=" + tail;
    NameLengthOf("path", "=" + tail);
    assert s[4..] == "=" + tail && s[..4] == "path";
    SkipSettled("=" + tail);
    assert ("=" + tail)[1..] == tail;
  }

  lemma {:induction false} FirstIsAction(s: string, pairs: seq<ActionPair>)
    requires ParseManifest(s) == Some(pairs)
    requires Skip(s) == s && NewlineLength(s) == 0 && ParseTransform(s).Fail?
    ensures ParseAction(s).Done? && |pairs| > 0 && pairs[0] == ParseAction(s).value
  {
  }

  lemma FirstOfAction(s: string)
    requires ParseAction(s).Done?
    ensures var first := ParseFirst(Skip(s[KeywordLength(s)..]));
      && first.Done? && ParseAction(s).value.payload == first.value.0
      && first.value.1 <= ParseAction(s).value.properties
  {
  }

  lemma {:induction false} OneProperty(ps: seq<PropertyPair>)
    ensures |PropertiesOf(ps)| == |ps|
    ensures |ps| == 1 ==> PropertiesOf(ps) == [PropertyOf(ps[0])]
  {
    if ps == [] {
    } else {
      OneProperty(ps[..|ps| - 1]);
    }
  }

  /** A pair that makes the action of the path has one property, which cleans to the path. */
  lemma OnlyProperty(pair: ActionPair, path: string)
    requires ActionOf(pair) == FileAction(path)
    ensures |pair.properties| == 1 && Clean(pair.properties[0].text) == path
    ensures pair.payload.None? || pair.payload == Some("")
  {
    OneProperty(pair.properties);
  }

  /** If the line reads as that action, the text after the equals sign cleans to the path. */
  lemma {:induction false} FirstActionRead(path: string, pairs: seq<ActionPair>)
    requires ParseManifest(EmittedLine(path)) == Some(pairs) && ActionsOf(pairs) == [FileAction(path)]
    ensures ValueAfter(path) != "" && Clean(ValueAfter(path)) == path
  {
    var s := EmittedLine(path);
    AfterKeyword(path);
    PathProperty(path);
    FirstIsAction(s, pairs);
    FirstOfAction(s);
    ActionsPrefix(pairs, |pairs|);
    assert pairs == [pairs[0]];
    OneAction(pairs[0]);
    OnlyProperty(pairs[0], path);
  }

  lemma {:induction false} BareLineReadsBack(path: string)
    requires BareText(path)
    ensures ParseManifest(EmittedLine(path)).Some?
    ensures ActionsOf(ParseManifest(EmittedLine(path)).value) == [FileAction(path)]
  {
    var files := [PathOnly(path)];
    OneEmitted(path);
    EmittedAreLayouts(files);
    EmittedLinesGood(files);
    var d := Document(EmittedLines(files), None);
    GoodDocumentFits(d);
    DocumentParses(d);
    DocumentMeant(d);
    assert MeantDocument(d) == MeantLines(EmittedLines(files));
  }

  lemma OneEmitted(path: string)
    requires BareText(path)
    ensures Emitted([PathOnly(path)]) == EmittedLine(path)
    ensures MeantLines(EmittedLines([PathOnly(path)])) == [FileAction(path)]
  {
    var files := [PathOnly(path)];
    assert files[1..] == [] && EmittedLine(path) + "" == EmittedLine(path);
    MeantEmitted(path);
    assert EmittedLines(files) == [EmittedEntry(path)];
    assert [EmittedEntry(path)][1..] == [];
  }

  /**
   A written line reads back as the one file action with that path exactly when the path is bare
   text: not empty, no blank, newline, quote or backslash, and no leading hash mark.
   */
  lemma {:induction false} LineReadsBackExactlyWhenBare(path: string)
    ensures var r := ParseManifest(EmittedLine(path));
      r.Some? && ActionsOf(r.value) == [FileAction(path)] <==> BareText(path)
  {
    if BareText(path) {
      BareLineReadsBack(path);
    }
    var r := ParseManifest(EmittedLine(path));
    if r.Some? && ActionsOf(r.value) == [FileAction(path)] {
      FirstActionRead(path, r.value);
      ValueIsBare(path);
    }
  }
}
