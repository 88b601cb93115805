/**
 From layout to text: the grammar reads every layout that fits back as the actions it lays out. With
 the converse in `ManifestSoundness` this describes the accepted texts exactly.
 */
module ManifestReading {
  import opened Prelude
  import opened Text
  import opened ManifestGrammar
  import opened ManifestLayout
  import opened ManifestSoundness

  // ---- Actions ----

  /** What ends an action: a newline or the end of the text. */
  predicate Terminal(s: string) {
    s == "" || StartsNewline(s)
  }

  lemma {:induction false} TrailingEnds(g: Gap, rest: string)
    requires GapFits(g, rest) && Terminal(rest)
    ensures Skip(GapText(g, rest)) == rest && ParseProperty(rest).Fail? && (NewlineLength(rest) > 0 || rest == "")
  {
    SkipGap(g, rest);
    SkipSettled(rest);
    NewlineStarts(rest);
    NoEqualsNoProperty(rest, 0);
  }

  lemma KeywordLengthOf(keyword: string, rest: string)
    requires keyword in KEYWORDS
    ensures KeywordLength(keyword + rest) == |keyword| > 0
    ensures Settled(keyword + rest) && NameChar((keyword + rest)[0])
  {
    var s := keyword + rest;
    assert s[0] == keyword[0] && s[1] == keyword[1] && s[2] == keyword[2];
    assert "set"[0] == 's' && "file"[0] == 'f' && "hardlink"[0] == 'h' && "group"[0] == 'g' && "user"[0] == 'u';
    assert "depend"[0] == "dir"[0] == "driver"[0] == 'd' && "depend"[1] == 'e' && "dir"[1] == 'i' && "driver"[1] == 'r';
    assert "license"[0] == "link"[0] == "legacy"[0] == 'l';
    assert "license"[2] == 'c' && "link"[2] == 'n' && "legacy"[2] == 'g';
  }

  /** Everything after the first property or payload. */
  lemma {:induction false} TailParses(ps: seq<LaidProperty>, trailing: Gap, rest: string)
    requires PropertiesFit(ps, GapText(trailing, rest)) && GapFits(trailing, rest) && Terminal(rest)
    ensures var (more, end) := Properties(Skip(PropertiesText(ps, GapText(trailing, rest))));
      more == Pairs(ps) && Skip(end) == rest
  {
    TrailingEnds(trailing, rest);
    MorePropertiesParse(ps, GapText(trailing, rest));
    SkippedProperties(PropertiesText(ps, GapText(trailing, rest)));
  }

  lemma {:induction false} FirstPayloadParses(p: LaidPayload, tail: string)
    requires PayloadFits(p, tail)
    ensures ParseFirst(Skip(GapText(p.before, WrittenPayload(p) + tail))) == Done((Some(WrittenPayload(p)), []), tail)
  {
    var s := WrittenPayload(p) + tail;
    ValueLengthOf(p.text, p.quoted, tail);
    SkipGap(p.before, s);
    SkipSettled(s);
    PropertyReadsExactlyWhen(s);
    assert s[..|WrittenPayload(p)|] == WrittenPayload(p) && s[|WrittenPayload(p)|..] == tail;
  }

  /** The property or payload that follows the keyword, and the text after it. */
  lemma {:induction false} FirstParses(a: LaidAction, rest: string)
    requires ActionFits(a, rest)
    ensures var n := if a.payload.None? then 1 else 0;
      var close := GapText(a.trailing, rest);
      |Pairs(a.properties)| >= n
      && ParseFirst(Skip(PayloadText(a.payload, PropertiesText(a.properties, close))))
         == Done((PairOf(a).payload, Pairs(a.properties)[..n]), PropertiesText(a.properties[n..], close))
  {
    var close := GapText(a.trailing, rest);
    if a.payload.Some? {
      FirstPayloadParses(a.payload.value, PropertiesText(a.properties, close));
      assert a.properties[0..] == a.properties;
    } else {
      SeparatedPropertyParses(a.properties[0], PropertiesText(a.properties[1..], close));
    }
  }

  lemma PropertiesFrom(ps: seq<LaidProperty>, n: nat, rest: string)
    requires n <= 1 && n <= |ps|
    ensures |Pairs(ps)| >= n && Pairs(ps)[..n] + Pairs(ps[n..]) == Pairs(ps)
    ensures PropertiesFit(ps, rest) ==> PropertiesFit(ps[n..], rest)
  {
    assert ps[0..] == ps;
  }

  /** Putting the parts of an action together. */
  lemma ActionAssembles(keyword: string, after: string, first: (Option<string>, seq<PropertyPair>), tail: string,
                        rest: string)
    requires KeywordLength(keyword + after) == |keyword| > 0
    requires ParseFirst(Skip(after)) == Done(first, tail)
    requires Skip(Properties(Skip(tail)).1) == rest && Terminal(rest)
    ensures ParseAction(keyword + after)
         == Done(ActionPair(keyword, first.0, first.1 + Properties(Skip(tail)).0), rest[NewlineLength(rest)..])
  {
    assert (keyword + after)[..|keyword|] == keyword && (keyword + after)[|keyword|..] == after;
  }

  /** Every layout of an action that fits is read back as that action, whatever follows its line. */
  lemma {:induction false} ActionParses(a: LaidAction, rest: string)
    requires ActionFits(a, rest) && Terminal(rest)
    ensures ParseAction(ActionText(a, rest)) == Done(PairOf(a), rest[NewlineLength(rest)..])
    ensures Settled(ActionText(a, rest)) && ActionText(a, rest) != "" && NameChar(ActionText(a, rest)[0])
  {
    var n := if a.payload.None? then 1 else 0;
    var close := GapText(a.trailing, rest);
    var after := PayloadText(a.payload, PropertiesText(a.properties, close));
    var tail := PropertiesText(a.properties[n..], close);
    KeywordLengthOf(a.keyword, after);
    FirstParses(a, rest);
    PropertiesFrom(a.properties, n, close);
    TailParses(a.properties[n..], a.trailing, rest);
    ActionAssembles(a.keyword, after, (PairOf(a).payload, Pairs(a.properties)[..n]), tail, rest);
  }

  // ---- Transforms ----

  /** An arrow is not mistaken for a property, though a dash may start a name. */
  lemma ArrowIsNoProperty(s: string)
    requires "->" <= s
    ensures Skip(s) == s && ParseProperty(s).Fail?
  {
    NameLengthOf("-", s[1..]);
    assert s == "-" + s[1..];
    SkipSettled(s);
    SkipSettled(s[1..]);
  }

  lemma {:induction false} ArrowParses(t: LaidTransform, rest: string)
    requires ArrowFits(t, rest)
    ensures ParseProperty(Skip(ArrowText(t, rest))).Fail?
    ensures "->" <= Skip(ArrowText(t, rest))
    ensures var operation := Skip(Skip(ArrowText(t, rest))[2..]);
      Skip(operation[UntilLength(operation, '>')..]) == ">" + rest
  {
    var tail := t.operation + (">" + rest);
    var arrow := "->" + GapText(t.after, tail);
    SkipGap(t.before, arrow);
    ArrowIsNoProperty(arrow);
    assert arrow[2..] == GapText(t.after, tail);
    SkipGap(t.after, tail);
    SkipSettled(tail);
    UntilLengthOf(t.operation, '>', rest);
    assert tail == t.operation + (['>'] + rest);
    assert tail[|t.operation|..] == ">" + rest;
    SkipSettled(">" + rest);
  }

  /** Putting the parts of a transform together. */
  lemma {:induction false} TransformAssembles(
      x: string, keyword: string, after: string, p: PropertyPair, tail: string, close: string, rest: string)
    requires Skip(x) == keyword + after && KeywordLength(keyword + after) == |keyword| > 0
    requires ParseProperty(Skip(after)) == Done(p, tail)
    requires Skip(Properties(Skip(tail)).1) == close && "->" <= close
    requires var operation := Skip(close[2..]); Skip(operation[UntilLength(operation, '>')..]) == ">" + rest
    ensures ParseTransform("<transform " + x) == Done((), rest)
  {
    var s := "<transform " + x;
    assert |"<transform "| == 11 && s[11..] == x;
  }

  /** A transform is read whole. */
  lemma {:induction false} TransformParses(t: LaidTransform, rest: string)
    requires TransformFits(t, rest)
    ensures ParseTransform(TransformText(t, rest)) == Done((), rest)
  {
    var close := ArrowText(t, rest);
    var first, more := t.properties[0], t.properties[1..];
    var tail := PropertiesText(more, close);
    var after := PropertiesText(t.properties, close);
    KeywordLengthOf(t.keyword, after);
    SkipGap(t.start, t.keyword + after);
    SkipSettled(t.keyword + after);
    ArrowParses(t, rest);
    TransformTail(more, close);
    SeparatedPropertyParses(first, tail);
    TransformAssembles(GapText(t.start, t.keyword + after), t.keyword, after, PropertyPair(first.name, Written(first)),
                       tail, Skip(close), rest);
  }

  lemma {:induction false} TransformTail(ps: seq<LaidProperty>, close: string)
    requires PropertiesFit(ps, close) && ParseProperty(Skip(close)).Fail?
    ensures Skip(Properties(Skip(PropertiesText(ps, close))).1) == Skip(close)
  {
    MorePropertiesParse(ps, close);
    SkippedProperties(PropertiesText(ps, close));
  }

  lemma TransformStart(t: LaidTransform, rest: string)
    ensures Skip(TransformText(t, rest)) == TransformText(t, rest) && NewlineLength(TransformText(t, rest)) == 0
  {
    assert "<transform "[0] == '<' && TransformText(t, rest)[0] == '<';
    SkipSettled(TransformText(t, rest));
  }

  // ---- Documents ----

  /** Text that starts with a letter is skipped to, and is neither a newline nor a transform. */
  lemma {:induction false} StartsWithLetter(s: string)
    requires s != "" && NameChar(s[0])
    ensures Skip(s) == s && NewlineLength(s) == 0 && ParseTransform(s) == Fail
  {
    NameSettled(s);
    SkipSettled(s);
    NewlineStarts(s);
    NoTransform(s);
  }

  lemma {:induction false} NoTransform(s: string)
    requires s != "" && s[0] != '<'
    ensures ParseTransform(s) == Fail
  {
    assert "<transform "[0] == '<';
  }

  lemma ItemIsAction(s: string)
    requires NewlineLength(s) == 0 && ParseTransform(s) == Fail
    ensures ParseItem(s) == match ParseAction(s) case Fail => Fail case Done(a, rest) => Done([a], rest)
  {
  }

  lemma {:induction false} ItemAction(a: LaidAction, rest: string)
    requires ActionFits(a, rest) && Terminal(rest)
    ensures Skip(ActionText(a, rest)) == ActionText(a, rest)
    ensures ParseItem(ActionText(a, rest)) == Done([PairOf(a)], rest[NewlineLength(rest)..])
  {
    ActionParses(a, rest);
    StartsWithLetter(ActionText(a, rest));
    ItemIsAction(ActionText(a, rest));
  }

  /** Reading `s` yields `actions` and goes on as reading `t` does; `some` says `s` itself holds an element. */
  predicate ReadsAs(s: string, actions: seq<ActionPair>, some: bool, t: string) {
    && ParseItems(s).0 == actions + ParseItems(t).0
    && Skip(ParseItems(s).1) == Skip(ParseItems(t).1)
    && (ParseItem(Skip(s)).Done? <==> some || ParseItem(Skip(t)).Done?)
  }

  lemma ReadsOn(s: string, xs: seq<ActionPair>, a: bool, t: string, ys: seq<ActionPair>, b: bool, u: string)
    requires ReadsAs(s, xs, a, t) && ReadsAs(t, ys, b, u)
    ensures ReadsAs(s, xs + ys, a || b, u)
  {
    assert xs + (ys + ParseItems(u).0) == (xs + ys) + ParseItems(u).0;
  }

  /** An element at the front is read, then the rest. */
  lemma ReadsItem(s: string, actions: seq<ActionPair>, rest: string)
    requires Skip(s) == s && ParseItem(s) == Done(actions, rest)
    ensures ReadsAs(s, actions, true, rest)
  {
  }

  lemma ReadsSkipped(s: string, rest: string)
    requires Skip(s) == Skip(rest)
    ensures ReadsAs(s, [], false, rest)
  {
  }

  lemma {:induction false} ItemIsBlank(s: string, n: nat)
    requires NewlineLength(s) == n > 0
    ensures ParseItem(s) == Done([], s[n..])
  {
  }

  lemma {:induction false} BlankIsDropped(e: Ending, rest: string)
    requires EndingFits(e, rest)
    ensures ReadsAs(Newline(e) + rest, [], true, rest)
  {
    NewlineLengthOf(e, rest);
    ItemIsBlank(Newline(e) + rest, |Newline(e)|);
    SkipSettled(Newline(e) + rest);
    ReadsItem(Newline(e) + rest, [], rest);
  }

  lemma {:induction false} EntryParses(a: LaidAction, e: Ending, rest: string)
    requires EndingFits(e, rest) && ActionFits(a, Newline(e) + rest)
    ensures ReadsAs(ActionText(a, Newline(e) + rest), [PairOf(a)], true, rest)
  {
    NewlineLengthOf(e, rest);
    ItemAction(a, Newline(e) + rest);
    ReadsItem(ActionText(a, Newline(e) + rest), [PairOf(a)], rest);
  }

  lemma {:induction false} TransformIsDropped(t: LaidTransform, rest: string)
    requires TransformFits(t, rest)
    ensures ReadsAs(TransformText(t, rest), [], true, rest)
  {
    TransformStart(t, rest);
    TransformParses(t, rest);
    ItemIsTransform(TransformText(t, rest), rest);
    ReadsItem(TransformText(t, rest), [], rest);
  }

  lemma ItemIsTransform(s: string, rest: string)
    requires NewlineLength(s) == 0 && ParseTransform(s) == Done((), rest)
    ensures ParseItem(s) == Done([], rest)
  {
  }

  lemma {:induction false} AsideIsSkipped(f: Filler, rest: string)
    requires FillerFits(f, rest)
    ensures ReadsAs(FillerText(f, rest), [], false, rest)
  {
    SkipFiller(f, rest);
    ReadsSkipped(FillerText(f, rest), rest);
  }

  lemma {:induction false} LineParses(line: Line, rest: string)
    requires LineFits(line, rest)
    ensures ReadsAs(LineText(line, rest), EntryOf(line), !line.Aside?, rest)
  {
    match line
    case Blank(e) => BlankIsDropped(e, rest);
    case Aside(f) => AsideIsSkipped(f, rest);
    case Transform(t) => TransformIsDropped(t, rest);
    case Entry(a, e) => EntryParses(a, e, rest);
  }

  lemma {:induction false} LinesParse(lines: seq<Line>, rest: string)
    requires LinesFit(lines, rest)
    ensures ReadsAs(LinesText(lines, rest), Entries(lines), HasItem(lines), rest)
  {
    if lines == [] {
    } else {
      var l, more := lines[0], lines[1..];
      var after := LinesText(more, rest);
      LineParses(l, after);
      LinesParse(more, rest);
      ReadsOn(LineText(l, after), EntryOf(l), !l.Aside?, after, Entries(more), HasItem(more), rest);
    }
  }

  lemma {:induction false} LastParses(last: Option<LaidAction>)
    requires last.Some? ==> ActionFits(last.value, "")
    ensures ReadsAs(LastText(last), LastEntry(last), last.Some?, "")
  {
    if last.Some? {
      ItemAction(last.value, "");
    }
  }

  lemma ReadsWhole(s: string, actions: seq<ActionPair>)
    requires ReadsAs(s, actions, true, "")
    ensures ParseManifest(s) == Some(actions)
  {
    assert Skip("") == "" && ParseItems("") == ([], "");
    assert actions + [] == actions;
  }

  /**
   The round trip: the grammar reads a document that fits back as exactly its actions, keyword,
   payload, names and written values, in order.
   */
  lemma {:induction false} DocumentParses(d: Document)
    requires DocumentFits(d)
    ensures ParseManifest(DocumentText(d)) == Some(DocumentActions(d))
  {
    LinesParse(d.lines, LastText(d.last));
    LastParses(d.last);
    ReadsOn(DocumentText(d), Entries(d.lines), HasItem(d.lines), LastText(d.last),
            LastEntry(d.last), d.last.Some?, "");
    ReadsWhole(DocumentText(d), DocumentActions(d));
  }

  /** The accepted texts, exactly: those of the documents that fit, with the actions of the document. */
  lemma {:induction false} AcceptedExactlyWhen(s: string, actions: seq<ActionPair>)
    ensures ParseManifest(s) == Some(actions) <==>
      exists d :: DocumentFits(d) && DocumentText(d) == s && DocumentActions(d) == actions
  {
    if ParseManifest(s) == Some(actions) {
      AcceptedIsDocument(s);
    }
    if d :| DocumentFits(d) && DocumentText(d) == s && DocumentActions(d) == actions {
      DocumentParses(d);
    }
  }

  // ---- Concatenation: text printed in front of a text is text printed on its own, then that text ----

  lemma FillerAppend(f: Filler, s: string, t: string)
    ensures FillerText(f, s + t) == FillerText(f, s) + t
  {
    match f
    case Space =>
    case Tab =>
    case Continued(e) =>
      Assoc(Newline(e), s, t);
      Assoc("\\", Newline(e) + s, t);
    case Comment(text, e) =>
      Assoc(Newline(e), s, t);
      Assoc(text, Newline(e) + s, t);
      Assoc("#", text + (Newline(e) + s), t);
  }

  lemma {:induction false} GapAppend(g: Gap, s: string, t: string)
    ensures GapText(g, s + t) == GapText(g, s) + t
  {
    if g == [] {
    } else {
      GapAppend(g[1..], s, t);
      FillerAppend(g[0], GapText(g[1..], s), t);
    }
  }

  lemma PropertyAppend(p: LaidProperty, s: string, t: string)
    ensures PropertyText(p, s + t) == PropertyText(p, s) + t
  {
    var value := Written(p) + s;
    Assoc(Written(p), s, t);
    GapAppend(p.right, value, t);
    var equals := "=" + GapText(p.right, value);
    Assoc("=", GapText(p.right, value), t);
    GapAppend(p.left, equals, t);
    Assoc(p.name, GapText(p.left, equals), t);
  }

  lemma {:induction false} PropertiesAppend(ps: seq<LaidProperty>, s: string, t: string)
    ensures PropertiesText(ps, s + t) == PropertiesText(ps, s) + t
  {
    if ps == [] {
    } else {
      var tail := PropertiesText(ps[1..], s);
      PropertiesAppend(ps[1..], s, t);
      PropertyAppend(ps[0], tail, t);
      GapAppend(ps[0].before, PropertyText(ps[0], tail), t);
    }
  }

  lemma ActionAppend(a: LaidAction, s: string, t: string)
    ensures ActionText(a, s + t) == ActionText(a, s) + t
  {
    var close := GapText(a.trailing, s);
    var tail := PropertiesText(a.properties, close);
    GapAppend(a.trailing, s, t);
    PropertiesAppend(a.properties, close, t);
    if a.payload.Some? {
      Assoc(WrittenPayload(a.payload.value), tail, t);
      GapAppend(a.payload.value.before, WrittenPayload(a.payload.value) + tail, t);
    }
    Assoc(a.keyword, PayloadText(a.payload, tail), t);
  }

  lemma TransformAppend(x: LaidTransform, s: string, t: string)
    ensures TransformText(x, s + t) == TransformText(x, s) + t
  {
    Assoc(">", s, t);
    Assoc(x.operation, ">" + s, t);
    GapAppend(x.after, x.operation + (">" + s), t);
    Assoc("->", GapText(x.after, x.operation + (">" + s)), t);
    GapAppend(x.before, "->" + GapText(x.after, x.operation + (">" + s)), t);
    PropertiesAppend(x.properties, ArrowText(x, s), t);
    Assoc(x.keyword, PropertiesText(x.properties, ArrowText(x, s)), t);
    GapAppend(x.start, x.keyword + PropertiesText(x.properties, ArrowText(x, s)), t);
    Assoc("<transform ", GapText(x.start, x.keyword + PropertiesText(x.properties, ArrowText(x, s))), t);
  }

  lemma {:induction false} LinesAppend(lines: seq<Line>, s: string, t: string)
    ensures LinesText(lines, s + t) == LinesText(lines, s) + t
  {
    if lines == [] {
    } else {
      var tail := LinesText(lines[1..], s);
      LinesAppend(lines[1..], s, t);
      match lines[0] {
        case Blank(e) => Assoc(Newline(e), tail, t);
        case Aside(f) => FillerAppend(f, tail, t);
        case Transform(x) => TransformAppend(x, tail, t);
        case Entry(a, e) =>
          Assoc(Newline(e), tail, t);
          ActionAppend(a, Newline(e) + tail, t);
      }
    }
  }

  /** Lines in front of a document that they fit add their actions to those of the document. */
  lemma {:induction false} ConcatenationParses(lines: seq<Line>, d: Document)
    requires LinesFit(lines, DocumentText(d)) && DocumentFits(d)
    ensures ParseManifest(LinesText(lines, "") + DocumentText(d)) == Some(Entries(lines) + DocumentActions(d))
  {
    var text := DocumentText(d);
    assert "" + text == text;
    LinesAppend(lines, "", text);
    LinesParse(lines, text);
    LinesParse(d.lines, LastText(d.last));
    LastParses(d.last);
    ReadsOn(text, Entries(d.lines), HasItem(d.lines), LastText(d.last), LastEntry(d.last), d.last.Some?, "");
    ReadsOn(LinesText(lines, text), Entries(lines), HasItem(lines), text, DocumentActions(d), true, "");
    ReadsWhole(LinesText(lines, text), Entries(lines) + DocumentActions(d));
  }

  // ---- Good layouts fit whatever follows ----

  lemma {:induction false} GoodGapFits(g: Gap, rest: string)
    requires GoodGap(g)
    ensures GapFits(g, rest)
  {
    if g == [] {
    } else {
      assert g[0] in g;
      GoodGapFits(g[1..], rest);
    }
  }

  lemma GapEnds(g: Gap, rest: string)
    requires Separates(g) || (g == [] && Ender(rest))
    ensures Ender(GapText(g, rest))
  {
    if g != [] && g[0].Continued? {
      var tail := Newline(g[0].end) + GapText(g[1..], rest);
      assert GapText(g, rest)[1..] == tail && tail[0] == Newline(g[0].end)[0];
    }
  }

  lemma GoodPropertyFits(p: LaidProperty, rest: string)
    requires GoodProperty(p) && Ender(rest)
    ensures PropertyFits(p, rest)
  {
    GoodGapFits(p.right, Written(p) + rest);
    GoodGapFits(p.left, "=" + GapText(p.right, Written(p) + rest));
    if !p.quoted {
      assert p.value[|p.value| - 1] in p.value && p.value[0] in p.value;
    }
  }

  lemma {:induction false} GoodPropertiesFit(ps: seq<LaidProperty>, rest: string)
    requires GoodProperties(ps) && Ender(rest)
    ensures PropertiesFit(ps, rest) && Ender(PropertiesText(ps, rest))
  {
    if ps == [] {
    } else {
      assert ps[0] in ps;
      var tail := PropertiesText(ps[1..], rest);
      GoodPropertiesFit(ps[1..], rest);
      GoodPropertyFits(ps[0], tail);
      GoodGapFits(ps[0].before, PropertyText(ps[0], tail));
      GapEnds(ps[0].before, PropertyText(ps[0], tail));
    }
  }

  /** What follows a good payload is not an equals sign. */
  lemma {:induction false} NoEqualsAfter(ps: seq<LaidProperty>, trailing: Gap, rest: string)
    requires GoodProperties(ps) && GoodGap(trailing) && Terminal(rest)
    ensures !("=" <= Skip(PropertiesText(ps, GapText(trailing, rest))))
  {
    var close := GapText(trailing, rest);
    GoodGapFits(trailing, rest);
    TrailingEnds(trailing, rest);
    if ps != [] {
      assert ps[0] in ps;
      var tail := PropertiesText(ps[1..], close);
      GoodGapFits(ps[0].before, PropertyText(ps[0], tail));
      SkipGap(ps[0].before, PropertyText(ps[0], tail));
      PropertySettled(ps[0], tail);
      SkipSettled(PropertyText(ps[0], tail));
    }
  }

  lemma {:induction false} NameLengthBefore(text: string, rest: string)
    requires rest == "" || !NameChar(rest[0])
    ensures NameLength(text + rest) == NameLength(text)
  {
    if text == "" {
      assert text + rest == rest;
    } else {
      assert (text + rest)[0] == text[0] && (text + rest)[1..] == text[1..] + rest;
      NameLengthBefore(text[1..], rest);
    }
  }

  lemma SettledInside(text: string, rest: string, n: nat)
    requires n < |text| && text[n] !in " \t#\\="
    ensures Skip((text + rest)[n..]) == (text + rest)[n..] && !("=" <= (text + rest)[n..])
  {
    assert (text + rest)[n..][0] == text[n];
    SkipSettled((text + rest)[n..]);
  }

  /** A payload is not mistaken for the name of a property. */
  lemma PayloadIsNoProperty(text: string, rest: string)
    requires BarePayload(text) && Ender(rest) && !("=" <= Skip(rest))
    ensures ParseProperty(text + rest).Fail?
  {
    var n := NameLength(text);
    EnderIsNoName(rest);
    NameLengthBefore(text, rest);
    if n == |text| {
      assert (text + rest)[n..] == rest;
    } else if n > 0 {
      assert text[n] in text && text[n] !in " \t\n\r\"\\" && text[n] !in "=#";
      SettledInside(text, rest, n);
    }
    NoEqualsNoProperty(text + rest, n);
  }

  lemma {:induction false} GoodPayloadFits(p: LaidPayload, rest: string)
    requires GoodPayload(p) && Ender(rest) && !("=" <= Skip(rest))
    ensures PayloadFits(p, rest)
  {
    var s := WrittenPayload(p) + rest;
    GoodGapFits(p.before, s);
    if p.quoted {
      assert s[0] == '"';
      NoEqualsNoProperty(s, 0);
    } else {
      assert p.text[|p.text| - 1] in p.text && p.text[0] in p.text;
      PayloadIsNoProperty(p.text, rest);
    }
    PropertyReadsExactlyWhen(s);
  }

  lemma {:induction false} GoodActionFits(a: LaidAction, rest: string)
    requires GoodAction(a) && Terminal(rest)
    ensures ActionFits(a, rest)
  {
    var close := GapText(a.trailing, rest);
    GoodGapFits(a.trailing, rest);
    GapEnds(a.trailing, rest);
    GoodPropertiesFit(a.properties, close);
    if a.payload.Some? {
      NoEqualsAfter(a.properties, a.trailing, rest);
      GoodPayloadFits(a.payload.value, PropertiesText(a.properties, close));
    }
  }

  lemma {:induction false} GoodTransformFits(t: LaidTransform, rest: string)
    requires GoodTransform(t)
    ensures TransformFits(t, rest)
  {
    var tail := t.operation + (">" + rest);
    var close := ArrowText(t, rest);
    assert tail[0] == if t.operation == "" then '>' else t.operation[0];
    GoodGapFits(t.after, tail);
    GoodGapFits(t.before, "->" + GapText(t.after, tail));
    GapEnds(t.before, "->" + GapText(t.after, tail));
    GoodPropertiesFit(t.properties, close);
    GoodGapFits(t.start, t.keyword + PropertiesText(t.properties, close));
  }

  lemma {:induction false} GoodLinesFit(lines: seq<Line>, rest: string)
    requires GoodLines(lines)
    ensures LinesFit(lines, rest)
  {
    if lines == [] {
    } else {
      var tail := LinesText(lines[1..], rest);
      assert lines[0] in lines;
      GoodLinesFit(lines[1..], rest);
      match lines[0] {
        case Blank(_) =>
        case Aside(_) =>
        case Transform(t) => GoodTransformFits(t, tail);
        case Entry(a, e) =>
          assert (Newline(e) + tail)[0] == Newline(e)[0];
          GoodActionFits(a, Newline(e) + tail);
      }
    }
  }

  /** Good documents fit, so that they are read back. */
  lemma {:induction false} GoodDocumentFits(d: Document)
    requires GoodDocument(d)
    ensures DocumentFits(d)
  {
    GoodLinesFit(d.lines, LastText(d.last));
    if d.last.Some? {
      GoodActionFits(d.last.value, "");
    }
  }

  /** A bare value takes further equals signs with it; `name=value` is never read as a payload. */
  lemma {:induction false} PropertyBeforePayload(name: string, value: string, rest: string)
    requires GoodName(name) && BareText(value) && Ender(rest)
    ensures ParseFirst(name + ("=" + (value + rest))) == Done((None, [PropertyPair(name, value)]), rest)
  {
    var p := LaidProperty(name, value, [Space], [], [], false);
    GoodPropertyFits(p, rest);
    PropertyParses(p, rest);
  }

  // ---- The alphabet of names, and the keywords, character by character ----

  const LOWER_LETTERS := "abcdefghijklmnopqrstuvwxyz"
  const UPPER_LETTERS := "ABCDEFGHIJKLMNOPQRSTUVWXYZ"
  const NAME_CHARACTERS := LOWER_LETTERS + UPPER_LETTERS + "0123456789" + "._-/"

  lemma LowerLetters(c: char)
    ensures 'a' <= c <= 'z' <==> c in LOWER_LETTERS
  {
    assert 'a' <= c <= 'z' ==> LOWER_LETTERS[c as int - 'a' as int] == c;
  }

  lemma UpperLetters(c: char)
    ensures 'A' <= c <= 'Z' <==> c in UPPER_LETTERS
  {
    assert 'A' <= c <= 'Z' ==> UPPER_LETTERS[c as int - 'A' as int] == c;
  }

  lemma Digits(c: char)
    ensures '0' <= c <= '9' <==> c in "0123456789"
  {
    assert '0' <= c <= '9' ==> "0123456789"[c as int - '0' as int] == c;
  }

  lemma InConcat(a: string, b: string, c: char)
    ensures c in a + b <==> c in a || c in b
  {
  }

  lemma NameCharacters(c: char)
    ensures NameChar(c) <==> c in NAME_CHARACTERS
  {
    LowerLetters(c);
    UpperLetters(c);
    Digits(c);
    InConcat(LOWER_LETTERS + UPPER_LETTERS + "0123456789", "._-/", c);
    InConcat(LOWER_LETTERS + UPPER_LETTERS, "0123456789", c);
    InConcat(LOWER_LETTERS, UPPER_LETTERS, c);
    assert c in "._-/" <==> c == '.' || c == '_' || c == '-' || c == '/';
  }

  /** A name of letters, digits, dots, underscores, dashes and slashes is a property name. */
  lemma {:induction false} NamesAreRead(name: string, value: string, rest: string)
    requires name != "" && (forall c :: c in name ==> c in NAME_CHARACTERS) && BareText(value) && Ender(rest)
    ensures ParseProperty(name + ("=" + (value + rest))) == Done(PropertyPair(name, value), rest)
  {
    forall c | c in name ensures NameChar(c) { NameCharacters(c); }
    var p := LaidProperty(name, value, [Space], [], [], false);
    GoodPropertyFits(p, rest);
    PropertyParses(p, rest);
  }

  /** And no other name is read. */
  lemma {:induction false} ReadNames(s: string)
    requires ParseProperty(s).Done?
    ensures ParseProperty(s).value.name != "" && forall c :: c in ParseProperty(s).value.name ==> c in NAME_CHARACTERS
  {
    var p := PropertyShape(s, []);
    forall c | c in p.name ensures c in NAME_CHARACTERS { NameCharacters(c); }
  }

  /** The keywords, each read before any text. */
  lemma KeywordsAreRead(keyword: string, rest: string)
    requires keyword in {
      "set", "depend", "dir", "file", "license", "hardlink", "link", "driver", "group", "user", "legacy"}
    ensures KeywordLength(keyword + rest) == |keyword|
  {
    KeywordsAre(keyword);
    KeywordLengthOf(keyword, rest);
  }

  lemma KeywordsAre(keyword: string)
    ensures keyword in KEYWORDS <==> keyword in {
      "set", "depend", "dir", "file", "license", "hardlink", "link", "driver", "group", "user", "legacy"}
  {
    assert KEYWORDS[0] == "set" && KEYWORDS[1] == "depend" && KEYWORDS[2] == "dir" && KEYWORDS[3] == "file";
    assert KEYWORDS[4] == "license" && KEYWORDS[5] == "hardlink" && KEYWORDS[6] == "link";
    assert KEYWORDS[7] == "driver" && KEYWORDS[8] == "group" && KEYWORDS[9] == "user" && KEYWORDS[10] == "legacy";
    assert |KEYWORDS| == 11;
  }
}
