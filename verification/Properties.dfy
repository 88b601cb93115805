/** The properties of an action and what the typed records keep of them. */
module Properties {
  import opened Prelude
  import opened Text
  import opened Digests

  datatype Property = Property(key: string, value: string)

  datatype Facet = Facet(name: string, value: string)

  /** Quotes and backslashes are dropped from every value. */
  function Clean(text: string): string {
    Without(text, {'"', '\\'})
  }

  predicate IsFacet(key: string)
    ensures IsFacet(key) ==> |key| >= 6 && key[0] == 'f'
  {
    "facet." <= key
  }

  /** What follows the first dot, or the whole key. */
  function FacetKey(key: string): string {
    if '.' in key then AfterFirst(key, '.') else key
  }

  function AfterFirst(s: string, c: char): string
    requires c in s
  {
    if s[0] == c then s[1..] else AfterFirst(s[1..], c)
  }

  function SplitProperty(s: string): Property {
    if '=' in s then
      var parts := Split(s, '=');
      Property(parts[0], Clean(parts[1]))
    else Property(s, "")
  }

  // ---- What a list of properties says: each function reads the list once, later properties after earlier ----

  /** The value of the last property with this key, empty when there is none. */
  function LastValue(props: seq<Property>, key: string): string {
    if props == [] then ""
    else if props[|props| - 1].key == key then props[|props| - 1].value
    else LastValue(props[..|props| - 1], key)
  }

  /** All values with this key, in order. */
  function AllValues(props: seq<Property>, key: string): seq<string> {
    if props == [] then []
    else
      var p := props[|props| - 1];
      var before := AllValues(props[..|props| - 1], key);
      if p.key == key then before + [p.value] else before
  }

  /** The facets, the last one under each name. */
  function FacetsOf(props: seq<Property>): map<string, Facet> {
    if props == [] then map[]
    else
      var p := props[|props| - 1];
      var before := FacetsOf(props[..|props| - 1]);
      if IsFacet(p.key) then before[FacetKey(p.key) := Facet(FacetKey(p.key), p.value)] else before
  }

  /** The properties that are neither known by name nor facets, in order. */
  function OthersOf(props: seq<Property>, known: set<string>): seq<Property> {
    if props == [] then []
    else
      var p := props[|props| - 1];
      var before := OthersOf(props[..|props| - 1], known);
      if p.key in known || IsFacet(p.key) then before else before + [p]
  }

  /** The properties not known by name, the last one under each key. */
  function ByKey(props: seq<Property>, known: set<string>): map<string, Property> {
    if props == [] then map[]
    else
      var p := props[|props| - 1];
      var before := ByKey(props[..|props| - 1], known);
      if p.key in known then before else before[p.key := p]
  }

  const HASH_KEYS := {"chash", "pkg.content-hash"}

  /** The values of the hash properties, in order. */
  function HashTexts(props: seq<Property>): seq<string> {
    if props == [] then []
    else
      var p := props[|props| - 1];
      var before := HashTexts(props[..|props| - 1]);
      if p.key in HASH_KEYS then before + [p.value] else before
  }

  /** The digests of the hash properties, in order; none when one of them is malformed. */
  function HashDigests(props: seq<Property>): Option<seq<Digest>> {
    if props == [] then Some([])
    else
      var p := props[|props| - 1];
      match HashDigests(props[..|props| - 1])
      case None => None
      case Some(ds) =>
        if p.key !in HASH_KEYS then Some(ds)
        else match FromStr(p.value) case Ok(d) => Some(ds + [d]) case Err(_) => None
  }

  /** `trim`, the characters with the Unicode property White_Space. */
  predicate WhiteSpace(c: char) {
    || c in "\t\n\U{b}\U{c}\r \U{85}\U{a0}\U{1680}\U{2028}\U{2029}\U{202f}\U{205f}\U{3000}"
    || '\U{2000}' <= c <= '\U{200a}'
  }

  function TrimStart(s: string): string {
    if s != "" && WhiteSpace(s[0]) then TrimStart(s[1..]) else s
  }

  function TrimEnd(s: string): string {
    if s != "" && WhiteSpace(s[|s| - 1]) then TrimEnd(s[..|s| - 1]) else s
  }

  /** Lower case of a letter; only ASCII letters lower to the letters of the accepted words. */
  function Lower(s: string): string {
    if s == "" then ""
    else [if 'A' <= s[0] <= 'Z' then s[0] - 'A' + 'a' else s[0]] + Lower(s[1..])
  }

  /** `string_to_bool`, with false for what is not a boolean. */
  predicate BoolOf(value: string) {
    Lower(TrimEnd(TrimStart(value))) in {"true", "t"}
  }

  /** The value of the first property with this key. */
  function FirstValue(props: seq<Property>, key: string): Option<string> {
    if props == [] then None
    else if props[0].key == key then Some(props[0].value)
    else FirstValue(props[1..], key)
  }

  // ---- Their meaning ----

  /** Every quote and every backslash goes, whatever stands around it; nothing else does. */
  lemma CleanErases(a: string, c: char, b: string)
    ensures Clean("") == ""
    ensures Clean(a + [c] + b) == Clean(a) + (if c == '"' || c == '\\' then "" else [c]) + Clean(b)
  {
    WithoutErases(a, c, b, {'"', '\\'});
  }

  /** The first property with the key decides. */
  lemma {:induction false} FirstValueMeaning(props: seq<Property>, key: string)
    ensures FirstValue(props, key).None? <==> !HasKey(props, key)
    ensures forall i :: 0 <= i < |props| && props[i].key == key && (forall j :: 0 <= j < i ==> props[j].key != key)
              ==> FirstValue(props, key) == Some(props[i].value)
  {
    if props == [] {
    } else {
      FirstValueMeaning(props[1..], key);
      assert forall q :: q in props <==> q == props[0] || q in props[1..];
      forall i | 0 <= i < |props| && props[i].key == key && (forall j :: 0 <= j < i ==> props[j].key != key)
        ensures FirstValue(props, key) == Some(props[i].value)
      {
        if i > 0 {
          assert props[0].key != key;
          assert props[1..][i - 1] == props[i];
          assert forall j :: 0 <= j < i - 1 ==> props[1..][j] == props[j + 1];
        }
      }
    }
  }

  /** White space by its code points. */
  lemma WhiteSpaceCodes(c: char)
    ensures WhiteSpace(c) <==>
      var n := c as int;
      || 0x9 <= n <= 0xd || n == 0x20 || n == 0x85 || n == 0xa0 || n == 0x1680 || 0x2000 <= n <= 0x200a
      || n == 0x2028 || n == 0x2029 || n == 0x202f || n == 0x205f || n == 0x3000
  {
    var codes := "\t\n\U{b}\U{c}\r \U{85}\U{a0}\U{1680}\U{2028}\U{2029}\U{202f}\U{205f}\U{3000}";
    assert forall d: char :: d in codes <==>
      d == '\t' || d == '\n' || d == '\U{b}' || d == '\U{c}' || d == '\r' || d == ' ' || d == '\U{85}' || d == '\U{a0}'
      || d == '\U{1680}' || d == '\U{2028}' || d == '\U{2029}' || d == '\U{202f}' || d == '\U{205f}' || d == '\U{3000}';
  }

  predicate Spaces(s: string) {
    forall c :: c in s ==> WhiteSpace(c)
  }

  /** `true` or `t`, in any mixture of cases. */
  predicate TrueWord(w: string) {
    || (|w| == 1 && w[0] in "tT")
    || (|w| == 4 && w[0] in "tT" && w[1] in "rR" && w[2] in "uU" && w[3] in "eE")
  }

  lemma {:induction false} TrimStartSplits(s: string) returns (a: string)
    ensures Spaces(a) && s == a + TrimStart(s)
  {
    if s != "" && WhiteSpace(s[0]) {
      a := TrimStartSplits(s[1..]);
      a := [s[0]] + a;
    } else {
      a := "";
    }
  }

  lemma {:induction false} TrimEndSplits(s: string) returns (b: string)
    ensures Spaces(b) && s == TrimEnd(s) + b
  {
    var n := |s| - 1;
    if s != "" && WhiteSpace(s[n]) {
      b := TrimEndSplits(s[..n]);
      b := b + [s[n]];
    } else {
      b := "";
    }
  }

  lemma {:induction false} TrimStartPast(a: string, s: string)
    requires Spaces(a) && s != "" && !WhiteSpace(s[0])
    ensures TrimStart(a + s) == s
  {
    if a == "" {
      assert a + s == s;
    } else {
      assert a[0] in a && (a + s)[0] == a[0] && (a + s)[1..] == a[1..] + s;
      TrimStartPast(a[1..], s);
    }
  }

  lemma {:induction false} TrimEndPast(s: string, b: string)
    requires Spaces(b) && s != "" && !WhiteSpace(s[|s| - 1])
    ensures TrimEnd(s + b) == s
  {
    if b == "" {
      assert s + b == s;
    } else {
      var n := |b| - 1;
      assert b[n] in b && (s + b)[|s + b| - 1] == b[n] && (s + b)[..|s + b| - 1] == s + b[..n];
      TrimEndPast(s, b[..n]);
    }
  }

  lemma {:induction false} LowerAt(s: string)
    ensures |Lower(s)| == |s|
    ensures forall i :: 0 <= i < |s| ==>
      Lower(s)[i] == if 'A' <= s[i] <= 'Z' then s[i] - 'A' + 'a' else s[i]
  {
    if s == "" {
    } else {
      LowerAt(s[1..]);
    }
  }

  lemma {:induction false} LowersToTrue(w: string)
    ensures Lower(w) in {"true", "t"} <==> TrueWord(w)
  {
    LowerAt(w);
    assert "true"[0] == 't' && "true"[1] == 'r' && "true"[2] == 'u' && "true"[3] == 'e' && |"true"| == 4;
    assert "t"[0] == 't' && |"t"| == 1;
    if TrueWord(w) {
      if |w| == 1 {
        assert Lower(w) == "t";
      } else {
        assert Lower(w) == "true";
      }
    }
  }

  /** A value is true exactly when it is `true` or `t` in any case between spaces. */
  lemma {:induction false} BoolMeaning(value: string)
    ensures BoolOf(value) <==> exists a, w, b :: value == a + (w + b) && Spaces(a) && Spaces(b) && TrueWord(w)
  {
    if BoolOf(value) {
      TrueIsFramed(value);
    }
    if x, w, y :| value == x + (w + y) && Spaces(x) && Spaces(y) && TrueWord(w) {
      FramedIsTrue(x, w, y);
    }
  }

  lemma {:induction false} TrueIsFramed(value: string)
    requires BoolOf(value)
    ensures exists a, w, b :: value == a + (w + b) && Spaces(a) && Spaces(b) && TrueWord(w)
  {
    var start := TrimStart(value);
    var a := TrimStartSplits(value);
    var b := TrimEndSplits(start);
    LowersToTrue(TrimEnd(start));
    assert value == a + (TrimEnd(start) + b);
  }

  lemma LettersStay(c: char)
    requires c in "tTeE"
    ensures !WhiteSpace(c)
  {
    WhiteSpaceCodes(c);
  }

  lemma {:induction false} FramedIsTrue(x: string, w: string, y: string)
    requires Spaces(x) && Spaces(y) && TrueWord(w)
    ensures BoolOf(x + (w + y))
  {
    LettersStay(w[0]);
    LettersStay(w[|w| - 1]);
    TrimStartPast(x, w + y);
    TrimEndPast(w, y);
    LowersToTrue(w);
  }

  lemma FacetKeyStrips(key: string)
    requires IsFacet(key)
    ensures "facet." + FacetKey(key) == key
  {
    assert key[5] == '.' && '.' in key;
    assert forall i :: 0 <= i < 5 ==> key[i] == "facet."[i] != '.';
    var s := key;
    assert s[1..][0] == key[1] && s[2..][0] == key[2] && s[3..][0] == key[3] && s[4..][0] == key[4];
    assert s[1..][1..] == s[2..] && s[2..][1..] == s[3..] && s[3..][1..] == s[4..] && s[4..][1..] == s[5..];
    assert s[5..][0] == '.' && s[5..][1..] == s[6..];
    assert AfterFirst(s[5..], '.') == s[6..];
    assert AfterFirst(s[4..], '.') == s[6..];
    assert AfterFirst(s[3..], '.') == s[6..];
    assert AfterFirst(s[2..], '.') == s[6..];
    assert AfterFirst(s[1..], '.') == s[6..];
    assert key == key[..6] + key[6..];
  }

  /** Different facet properties never share a name. */
  lemma FacetKeyInjective(a: string, b: string)
    requires IsFacet(a) && IsFacet(b) && FacetKey(a) == FacetKey(b)
    ensures a == b
  {
    FacetKeyStrips(a);
    FacetKeyStrips(b);
  }

  ghost predicate HasKey(props: seq<Property>, key: string) {
    exists p :: p in props && p.key == key
  }

  lemma {:induction false} LastValueMeaning(props: seq<Property>, key: string)
    ensures !HasKey(props, key) ==> LastValue(props, key) == ""
    ensures forall i :: 0 <= i < |props| && props[i].key == key && (forall j :: i < j < |props| ==> props[j].key != key)
              ==> LastValue(props, key) == props[i].value
  {
    if props == [] {
    } else {
      var n := |props| - 1;
      LastValueMeaning(props[..n], key);
      assert props[n] in props;
      forall i | 0 <= i < |props| && props[i].key == key && (forall j :: i < j < |props| ==> props[j].key != key)
        ensures LastValue(props, key) == props[i].value
      {
        if i < n {
          assert props[..n][i] == props[i];
          assert props[n].key != key;
        }
      }
    }
  }

  /** A facet is kept exactly when its property is there, under its own name and with its last value. */
  lemma {:induction false} FacetsMeaning(props: seq<Property>, name: string)
    ensures name in FacetsOf(props) <==> HasKey(props, "facet." + name)
    ensures name in FacetsOf(props) ==> FacetsOf(props)[name] == Facet(name, LastValue(props, "facet." + name))
  {
    if props == [] {
    } else {
      var n := |props| - 1;
      var p := props[n];
      FacetsMeaning(props[..n], name);
      assert forall q :: q in props <==> q in props[..n] || q == p;
      if IsFacet(p.key) {
        FacetKeyStrips(p.key);
        if p.key == "facet." + name {
          assert p.key[6..] == name && ("facet." + FacetKey(p.key))[6..] == FacetKey(p.key);
        }
      } else {
        assert IsFacet("facet." + name);
      }
    }
  }

  lemma {:induction false} ByKeyMeaning(props: seq<Property>, known: set<string>, key: string)
    ensures key in ByKey(props, known) <==> key !in known && HasKey(props, key)
    ensures key in ByKey(props, known) ==> ByKey(props, known)[key] == Property(key, LastValue(props, key))
  {
    if props == [] {
    } else {
      var n := |props| - 1;
      ByKeyMeaning(props[..n], known, key);
      assert forall q :: q in props <==> q in props[..n] || q == props[n];
    }
  }

  /** Nothing else is lost: a property of unknown name is kept, once for each time it occurs, in order. */
  lemma {:induction false} OthersMeaning(props: seq<Property>, known: set<string>, p: Property)
    ensures multiset(OthersOf(props, known))[p]
         == if p.key in known || IsFacet(p.key) then 0 else multiset(props)[p]
    ensures InOrder(OthersOf(props, known), props)
  {
    if props == [] {
    } else {
      var n := |props| - 1;
      var init := props[..n];
      OthersMeaning(init, known, p);
      assert props == init + [props[n]];
      InOrderSnoc(OthersOf(init, known), init, props[n]);
    }
  }

  /** The values of one property under a key, and its hash text: only two keys hold digests. */
  lemma OneCollected(p: Property, key: string)
    ensures AllValues([], key) == [] && HashTexts([]) == []
    ensures AllValues([p], key) == if p.key == key then [p.value] else []
    ensures HashTexts([p]) == if p.key == "chash" || p.key == "pkg.content-hash" then [p.value] else []
  {
    assert [p][..0] == [];
  }

  /** Values and hash texts are collected front to back: those of a first part, then those of the rest. */
  lemma {:induction false} CollectedInOrder(xs: seq<Property>, ys: seq<Property>, key: string)
    ensures AllValues(xs + ys, key) == AllValues(xs, key) + AllValues(ys, key)
    ensures HashTexts(xs + ys) == HashTexts(xs) + HashTexts(ys)
  {
    if ys == [] {
      assert xs + ys == xs;
    } else {
      var n := |ys| - 1;
      assert (xs + ys)[..|xs + ys| - 1] == xs + ys[..n];
      CollectedInOrder(xs, ys[..n], key);
    }
  }

  /** The digests are the parses of the hash values, one for one; they exist exactly when all parse. */
  lemma {:induction false} HashDigestsMeaning(props: seq<Property>)
    ensures HashDigests(props).Some? <==> forall t :: t in HashTexts(props) ==> FromStr(t).Ok?
    ensures HashDigests(props).Some? ==>
      && |HashDigests(props).value| == |HashTexts(props)|
      && forall i :: 0 <= i < |HashTexts(props)| ==> FromStr(HashTexts(props)[i]) == Ok(HashDigests(props).value[i])
  {
    if props == [] {
    } else {
      var n := |props| - 1;
      HashDigestsMeaning(props[..n]);
      if props[n].key in HASH_KEYS {
        assert HashTexts(props) == HashTexts(props[..n]) + [props[n].value];
      }
    }
  }

  /** Cleaning does not hide an equals sign. */
  lemma CleanIsLonger(a: string, b: string)
    ensures Clean(a + (['='] + b)) != Clean(a)
  {
    var drop := {'"', '\\'};
    WithoutConcat(a, ['='] + b, drop);
    assert (['='] + b)[0] == '=' && '=' !in drop;
    assert |Without(['='] + b, drop)| > 0;
  }

  lemma {:induction false} FirstPart(s: string, c: char)
    requires c in s
    ensures Split(s, c)[0] + ([c] + Join(Split(s, c)[1..], [c])) == s
  {
    JoinSplit(s, c);
    var parts := Split(s, c);
    Assoc(parts[0], [c], Join(parts[1..], [c]));
  }

  /** Splitting keeps the whole value exactly when it holds no equals sign. */
  lemma {:induction false} SplitKeepsValueExactlyWhen(key: string, value: string)
    requires '=' !in key
    ensures SplitProperty(key + ['='] + value) == Property(key, Clean(value)) <==> '=' !in value
  {
    var s := key + ['='] + value;
    assert s[|key|] == '=';
    SplitAt(key, value, '=');
    if '=' in value {
      var parts := Split(value, '=');
      FirstPart(value, '=');
      CleanIsLonger(parts[0], Join(parts[1..], ['=']));
    } else {
      SplitWhole(value, '=');
    }
  }

  /** A payload `key=value` is that property; anything from a second equals sign on is lost; one without is a key. */
  lemma SplitPropertyReads(key: string, value: string, more: string)
    requires '=' !in key && '=' !in value
    ensures SplitProperty(key + ['='] + value) == Property(key, Clean(value))
    ensures SplitProperty(key + ['='] + (value + ['='] + more)) == Property(key, Clean(value))
    ensures SplitProperty(key) == Property(key, "")
  {
    SplitAt(key, value, '=');
    SplitWhole(value, '=');
    SplitAt(key, value + ['='] + more, '=');
    SplitAt(value, more, '=');
    assert (key + ['='] + value)[|key|] == '=';
    assert (key + ['='] + (value + ['='] + more))[|key|] == '=';
  }
}
