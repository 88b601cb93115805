/**
 From text to layout: whatever a rule of the grammar reads is laid out as the layout says, and the
 layout fits the text left over. Each lemma turns one successful rule into the part of the layout it read.
 */
module ManifestSoundness {
  import opened Prelude
  import opened Text
  import opened ManifestGrammar
  import opened ManifestLayout

  // ---- Gaps ----

  lemma NewlineShape(s: string) returns (e: Ending)
    requires NewlineLength(s) > 0
    ensures s == Newline(e) + s[NewlineLength(s)..] && EndingFits(e, s[NewlineLength(s)..])
  {
    e := if "\n" <= s then LF else if "\r\n" <= s then CRLF else CR;
    assert "\n" <= s[1..] ==> s[..2] == [s[0], '\n'];
  }

  lemma BlankShape(s: string) returns (f: Filler)
    requires BlankLength(s) > 0
    ensures FillerFits(f, s[BlankLength(s)..]) && s == FillerText(f, s[BlankLength(s)..])
  {
    if s[0] == '\\' {
      var e := NewlineShape(s[1..]);
      f := Continued(e);
      DropDrop(s, 1, NewlineLength(s[1..]));
      assert s == "\\" + s[1..];
    } else {
      f := if s[0] == ' ' then Space else Tab;
    }
  }

  lemma CommentCut(s: string) returns (text: string, end: string)
    requires CommentLength(s) > 0
    ensures s == "#" + (text + end) && text == s[1..][..LineLength(s[1..])]
    ensures NewlineLength(end) > 0 && s[CommentLength(s)..] == end[NewlineLength(end)..]
  {
    var body := s[1..];
    var n := LineLength(body);
    text, end := body[..n], body[n..];
    Cut(s, 1);
    Cut(body, n);
    DropDrop(s, 1, n);
    DropDrop(s, 1 + n, NewlineLength(end));
    assert s[..1] == "#";
  }

  lemma CommentShape(s: string) returns (f: Filler)
    requires CommentLength(s) > 0
    ensures FillerFits(f, s[CommentLength(s)..]) && s == FillerText(f, s[CommentLength(s)..])
  {
    var text, end := CommentCut(s);
    LineLengthStops(s[1..]);
    var e := NewlineShape(end);
    f := Comment(text, e);
  }

  /** Skipped text is a gap. */
  lemma {:induction false} SkipShape(s: string) returns (g: Gap)
    ensures GapFits(g, Skip(s)) && s == GapText(g, Skip(s)) && Settled(Skip(s))
    decreases |s|
  {
    SkipTwice(s);
    SkipSettled(Skip(s));
    if BlankLength(s) > 0 {
      var f := BlankShape(s);
      var more := SkipShape(s[BlankLength(s)..]);
      g := [f] + more;
      assert g[1..] == more;
    } else if CommentLength(s) > 0 {
      var f := CommentShape(s);
      var more := SkipShape(s[CommentLength(s)..]);
      g := [f] + more;
      assert g[1..] == more;
    } else {
      g := [];
    }
  }

  // ---- Tokens ----

  lemma {:induction false} NameShape(s: string)
    ensures forall c :: c in s[..NameLength(s)] ==> NameChar(c)
  {
    if NameLength(s) > 0 {
      NameShape(s[1..]);
      assert s[..NameLength(s)] == [s[0]] + s[1..][..NameLength(s[1..])];
    }
  }

  lemma {:induction false} BareShape(s: string)
    ensures forall c :: c in s[..BareLength(s)] ==> c !in " \t\n\r"
    ensures Ender(s[BareLength(s)..])
  {
    BlankStarts(s);
    NewlineStarts(s);
    if BareLength(s) == 0 {
      assert s[0..] == s;
    } else {
      var n := BareLength(s[1..]);
      BareShape(s[1..]);
      assert s[..n + 1] == [s[0]] + s[1..][..n] && s[n + 1..] == s[1..][n..];
    }
  }

  /** Bare text does not end in the backslash of a continued line. */
  lemma {:induction false} BareEnd(s: string)
    requires BareLength(s) > 0
    ensures s[BareLength(s) - 1] == '\\' ==> !StartsNewline(s[BareLength(s)..])
  {
    var n := BareLength(s[1..]);
    if n == 0 {
      NewlineStarts(s[1..]);
    } else {
      BareEnd(s[1..]);
      DropDrop(s, 1, n);
    }
  }

  /** A quote at the front is not closed, when no quoted value is there. */
  lemma {:induction false} UnclosedQuote(s: string, n: nat)
    requires QuotedLength(s) == 0 && 0 < n <= |s| && s[0] == '"'
    ensures '"' !in s[..n][1..] && '"' !in s[n..]
  {
    UntilShape(s[1..], '"');
    var body := s[1..];
    assert body[..|body|] == body;
    assert s[..n][1..] == body[..n - 1] && s[n..] == body[n - 1..];
  }

  lemma {:induction false} UntilShape(s: string, stop: char)
    ensures stop !in s[..UntilLength(s, stop)]
    ensures UntilLength(s, stop) < |s| ==> s[UntilLength(s, stop)] == stop
  {
    if UntilLength(s, stop) > 0 {
      UntilShape(s[1..], stop);
      assert s[..UntilLength(s, stop)] == [s[0]] + s[1..][..UntilLength(s[1..], stop)];
    }
  }

  lemma KeywordShape(s: string)
    requires KeywordLength(s) > 0
    ensures s[..KeywordLength(s)] in KEYWORDS
  {
    var w := s[..KeywordLength(s)];
    assert w == "set" || w == "depend" || w == "dir" || w == "file" || w == "license" || w == "hardlink"
      || w == "link" || w == "driver" || w == "group" || w == "user" || w == "legacy";
    assert KEYWORDS[0] == "set" && KEYWORDS[1] == "depend" && KEYWORDS[2] == "dir" && KEYWORDS[3] == "file";
    assert KEYWORDS[4] == "license" && KEYWORDS[5] == "hardlink" && KEYWORDS[6] == "link";
    assert KEYWORDS[7] == "driver" && KEYWORDS[8] == "group" && KEYWORDS[9] == "user" && KEYWORDS[10] == "legacy";
  }

  lemma ValueShape(s: string) returns (text: string, quoted: bool)
    requires ValueLength(s) > 0 && Settled(s)
    ensures ValueFits(text, quoted, s[ValueLength(s)..])
    ensures s[..ValueLength(s)] == WrittenValue(text, quoted)
  {
    quoted := QuotedLength(s) > 0;
    if quoted {
      text := QuotedShape(s);
    } else {
      var n := BareLength(s);
      text := s[..n];
      BareShape(s);
      BareEnd(s);
      Cut(s, n);
      if s[0] == '"' {
        UnclosedQuote(s, n);
      }
    }
  }

  lemma QuotedShape(s: string) returns (text: string)
    requires QuotedLength(s) > 0
    ensures '"' !in text && s[..QuotedLength(s)] == Quoted(text)
  {
    var n := UntilLength(s[1..], '"');
    UntilShape(s[1..], '"');
    text := s[1..][..n];
    assert s[..n + 2] == [s[0]] + s[1..][..n] + [s[1..][n]];
  }

  // ---- Properties ----

  lemma PropertyShape(s: string, before: Gap) returns (p: LaidProperty)
    requires ParseProperty(s).Done?
    ensures p.before == before && PropertyFits(p, ParseProperty(s).rest)
    ensures s == PropertyText(p, ParseProperty(s).rest)
    ensures ParseProperty(s).value == PropertyPair(p.name, Written(p))
  {
    var n := NameLength(s);
    var atEquals := Skip(s[n..]);
    var atValue := Skip(atEquals[1..]);
    var v := ValueLength(atValue);
    NameShape(s);
    var left := SkipShape(s[n..]);
    var right := SkipShape(atEquals[1..]);
    var text, quoted := ValueShape(atValue);
    p := LaidProperty(s[..n], text, before, left, right, quoted);
    Cut(atValue, v);
    Cut(atEquals, 1);
    assert atEquals[..1] == "=";
    Cut(s, n);
  }

  lemma {:induction false} MorePropertiesShape(s: string) returns (ps: seq<LaidProperty>)
    ensures PropertiesFit(ps, MoreProperties(s).1) && Pairs(ps) == MoreProperties(s).0
    ensures s == PropertiesText(ps, MoreProperties(s).1)
    decreases |s|
  {
    if ParseProperty(Skip(s)).Done? {
      var g := SkipShape(s);
      var p := PropertyShape(Skip(s), g);
      var more := MorePropertiesShape(ParseProperty(Skip(s)).rest);
      ps := [p] + more;
      assert ps[1..] == more;
    } else {
      ps := [];
    }
  }

  /** Properties after skipped text, and the gap behind them. */
  lemma {:induction false} PropertiesShape(s: string) returns (ps: seq<LaidProperty>, trailing: Gap)
    ensures Pairs(ps) == Properties(Skip(s)).0
    ensures var end := Skip(Properties(Skip(s)).1);
      && PropertiesFit(ps, GapText(trailing, end)) && GapFits(trailing, end)
      && s == PropertiesText(ps, GapText(trailing, end))
  {
    SkippedProperties(s);
    ps := MorePropertiesShape(s);
    trailing := SkipShape(MoreProperties(s).1);
  }

  /** A property is read exactly where a layout of one, fitting what follows, begins. */
  lemma PropertyReadsExactlyWhen(s: string)
    ensures ParseProperty(s).Done? <==> StartsWithProperty(s)
  {
    if ParseProperty(s).Done? {
      var p := PropertyShape(s, []);
      assert PropertyFits(p, ParseProperty(s).rest) && s == PropertyText(p, ParseProperty(s).rest);
    }
    if StartsWithProperty(s) {
      var p, rest :| PropertyFits(p, rest) && s == PropertyText(p, rest);
      PropertyParses(p, rest);
    }
  }

  // ---- Actions ----

  lemma PayloadShape(s: string, before: Gap) returns (p: LaidPayload)
    requires ValueLength(s) > 0 && ParseProperty(s).Fail? && Settled(s) && GapFits(before, s)
    ensures p.before == before && PayloadFits(p, s[ValueLength(s)..])
    ensures s[..ValueLength(s)] == WrittenPayload(p) && s == WrittenPayload(p) + s[ValueLength(s)..]
  {
    var text, quoted := ValueShape(s);
    p := LaidPayload(before, text, quoted);
    Cut(s, ValueLength(s));
    PropertyReadsExactlyWhen(s);
  }

  lemma OneProperty(p: LaidProperty, rest: string)
    ensures Pairs([p]) == [PropertyPair(p.name, Written(p))]
    ensures PropertiesText([p], rest) == GapText(p.before, PropertyText(p, rest))
    ensures PropertiesFit([p], rest) <==> GapFits(p.before, PropertyText(p, rest)) && PropertyFits(p, rest)
  {
    assert [p][1..] == [];
  }

  /** The payload, or the one property in its place. */
  lemma FirstShape(s: string) returns (payload: Option<LaidPayload>, first: seq<LaidProperty>)
    requires ParseFirst(Skip(s)).Done?
    ensures |first| == if payload.Some? then 0 else 1
    ensures var r := ParseFirst(Skip(s));
      && (payload.Some? ==> PayloadFits(payload.value, r.rest)) && PropertiesFit(first, r.rest)
      && r.value.0 == (if payload.Some? then Some(WrittenPayload(payload.value)) else None)
      && r.value.1 == Pairs(first)
      && s == PayloadText(payload, PropertiesText(first, r.rest))
  {
    var g := SkipShape(s);
    var at := Skip(s);
    if ParseProperty(at).Done? {
      var p := PropertyShape(at, g);
      payload, first := None, [p];
      OneProperty(p, ParseProperty(at).rest);
    } else {
      var p := PayloadShape(at, g);
      payload, first := Some(p), [];
    }
  }

  lemma {:induction false} PropertyCons(p: LaidProperty, more: seq<LaidProperty>, rest: string)
    ensures var tail := PropertiesText(more, rest);
      && PropertiesText([p] + more, rest) == GapText(p.before, PropertyText(p, tail))
      && (PropertiesFit([p] + more, rest) <==>
          GapFits(p.before, PropertyText(p, tail)) && PropertyFits(p, tail) && PropertiesFit(more, rest))
    ensures Pairs([p] + more) == [PropertyPair(p.name, Written(p))] + Pairs(more)
  {
    assert ([p] + more)[1..] == more;
  }

  lemma {:induction false} PropertiesJoin(first: seq<LaidProperty>, more: seq<LaidProperty>, rest: string)
    requires |first| <= 1
    ensures PropertiesText(first + more, rest) == PropertiesText(first, PropertiesText(more, rest))
    ensures Pairs(first + more) == Pairs(first) + Pairs(more)
    ensures PropertiesFit(first + more, rest) <==>
      PropertiesFit(first, PropertiesText(more, rest)) && PropertiesFit(more, rest)
  {
    if first == [] {
      assert first + more == more;
    } else {
      assert first == [first[0]];
      PropertyCons(first[0], more, rest);
      OneProperty(first[0], PropertiesText(more, rest));
    }
  }

  /** The successful run of the action rule. */
  lemma ActionRun(s: string)
    requires ParseAction(s).Done?
    ensures var k := KeywordLength(s);
      var first := ParseFirst(Skip(s[k..]));
      && k > 0 && first.Done?
      && var (more, tail) := Properties(Skip(first.rest));
         var end := Skip(tail);
         && (NewlineLength(end) > 0 || end == "")
         && ParseAction(s) == Done(ActionPair(s[..k], first.value.0, first.value.1 + more), end[NewlineLength(end)..])
  {
  }

  lemma {:induction false} ActionShape(s: string) returns (a: LaidAction, end: string)
    requires ParseAction(s).Done?
    ensures ActionFits(a, end) && PairOf(a) == ParseAction(s).value
    ensures s == ActionText(a, end) && (end == "" || NewlineLength(end) > 0)
    ensures ParseAction(s).rest == end[NewlineLength(end)..]
  {
    ActionRun(s);
    var k := KeywordLength(s);
    KeywordShape(s);
    var keyword, after := s[..k], s[k..];
    assert s == keyword + after;
    var payload, first := FirstShape(after);
    var rest := ParseFirst(Skip(after)).rest;
    var more, trailing := PropertiesShape(rest);
    end := Skip(Properties(Skip(rest)).1);
    PropertiesJoin(first, more, GapText(trailing, end));
    a := LaidAction(keyword, payload, first + more, trailing);
  }

  // ---- Transforms ----

  lemma {:induction false} OperationShape(s: string) returns (operation: string)
    requires ">" <= Skip(s[UntilLength(s, '>')..])
    ensures '>' !in operation && s == operation + (">" + Skip(s[UntilLength(s, '>')..])[1..])
  {
    var n := UntilLength(s, '>');
    operation := s[..n];
    UntilShape(s, '>');
    var close := s[n..];
    assert s == operation + close;
    SkipSettled(close);
    assert close == ">" + close[1..];
  }

  lemma {:induction false} ArrowShape(s: string, properties: seq<LaidProperty>) returns (t: LaidTransform)
    requires "->" <= Skip(s)
    requires var operation := Skip(Skip(s)[2..]); ">" <= Skip(operation[UntilLength(operation, '>')..])
    ensures t.start == [] && t.keyword == "" && t.properties == properties
    ensures var operation := Skip(Skip(s)[2..]);
      var rest := Skip(operation[UntilLength(operation, '>')..])[1..];
      ArrowFits(t, rest) && s == ArrowText(t, rest)
  {
    var arrow := Skip(s);
    var before := SkipShape(s);
    var after := SkipShape(arrow[2..]);
    var operation := OperationShape(Skip(arrow[2..]));
    t := LaidTransform([], "", properties, before, after, operation);
    assert arrow == "->" + arrow[2..];
  }

  /** The successful run of the transform rule. */
  lemma TransformRun(s: string)
    requires ParseTransform(s).Done?
    ensures "<transform " <= s && |s| >= 11
    ensures var atKeyword := Skip(s[11..]);
      var k := KeywordLength(atKeyword);
      var first := ParseProperty(Skip(atKeyword[k..]));
      && k > 0 && first.Done?
      && var arrow := Skip(Properties(Skip(first.rest)).1);
         && "->" <= arrow
         && var operation := Skip(arrow[2..]);
            var close := Skip(operation[UntilLength(operation, '>')..]);
            ">" <= close && ParseTransform(s).rest == close[1..]
  {
    assert |"<transform "| == 11;
  }

  /** The text up to and with the keyword. */
  lemma {:induction false} TransformHead(s: string) returns (start: Gap, keyword: string, after: string)
    requires "<transform " <= s && |s| >= 11 && KeywordLength(Skip(s[11..])) > 0
    ensures GapFits(start, keyword + after) && keyword in KEYWORDS
    ensures after == Skip(s[11..])[KeywordLength(Skip(s[11..]))..]
    ensures s == "<transform " + GapText(start, keyword + after)
  {
    var body := s[11..];
    Cut(s, 11);
    assert |"<transform "| == 11 && s[..11] == "<transform ";
    start := SkipShape(body);
    var atKeyword := Skip(body);
    var k := KeywordLength(atKeyword);
    KeywordShape(atKeyword);
    keyword, after := atKeyword[..k], atKeyword[k..];
    Cut(atKeyword, k);
  }

  lemma {:induction false} TransformShape(s: string) returns (t: LaidTransform)
    requires ParseTransform(s).Done?
    ensures TransformFits(t, ParseTransform(s).rest) && s == TransformText(t, ParseTransform(s).rest)
  {
    TransformRun(s);
    var start, keyword, after := TransformHead(s);
    var ps, tail := TransformProperties(after);
    var arrow := ArrowShape(tail, ps);
    t := TransformGlue(arrow, start, keyword, ParseTransform(s).rest);
  }

  lemma {:induction false} TransformGlue(arrow: LaidTransform, start: Gap, keyword: string, rest: string)
      returns (t: LaidTransform)
    ensures t == arrow.(start := start, keyword := keyword)
    ensures TransformText(t, rest)
         == "<transform " + GapText(start, keyword + PropertiesText(arrow.properties, ArrowText(arrow, rest)))
    ensures ArrowText(t, rest) == ArrowText(arrow, rest) && (ArrowFits(t, rest) <==> ArrowFits(arrow, rest))
  {
    t := arrow.(start := start, keyword := keyword);
  }

  /** The properties of a transform, up to the skipped text before its arrow. */
  lemma {:induction false} TransformProperties(s: string) returns (ps: seq<LaidProperty>, tail: string)
    requires ParseProperty(Skip(s)).Done?
    ensures ps != [] && PropertiesFit(ps, tail) && s == PropertiesText(ps, tail)
    ensures Skip(tail) == Skip(Properties(Skip(ParseProperty(Skip(s)).rest)).1)
  {
    var g := SkipShape(s);
    var first := PropertyShape(Skip(s), g);
    var rest := ParseProperty(Skip(s)).rest;
    SkippedProperties(rest);
    var more := MorePropertiesShape(rest);
    tail := MoreProperties(rest).1;
    ps := [first] + more;
    assert ps[1..] == more;
  }

  // ---- Documents ----

  /** One element: a line, or an action that ends the text. */
  lemma {:induction false} ItemShape(s: string) returns (line: Option<Line>, last: Option<LaidAction>)
    requires ParseItem(s).Done?
    ensures line.Some? <==> last.None?
    ensures line.Some? ==>
      && !line.value.Aside? && LineFits(line.value, ParseItem(s).rest)
      && s == LineText(line.value, ParseItem(s).rest) && ParseItem(s).value == EntryOf(line.value)
    ensures last.Some? ==>
      && ActionFits(last.value, "") && ParseItem(s).rest == ""
      && s == LastText(last) && ParseItem(s).value == LastEntry(last)
  {
    line, last := None, None;
    if NewlineLength(s) > 0 {
      var e := NewlineShape(s);
      line := Some(Blank(e));
    } else if ParseTransform(s).Done? {
      var t := TransformShape(s);
      line := Some(Transform(t));
    } else {
      var a, end := ActionShape(s);
      if end == "" {
        last := Some(a);
      } else {
        var e := NewlineShape(end);
        line := Some(Entry(a, e));
      }
    }
  }

  /** A document with a line in front. */
  lemma {:induction false} LineInFront(line: Line, d: Document) returns (r: Document)
    requires LineFits(line, DocumentText(d)) && LinesFit(d.lines, LastText(d.last))
    ensures LinesFit(r.lines, LastText(r.last)) && r.last == d.last
    ensures HasItem(r.lines) == (!line.Aside? || HasItem(d.lines))
    ensures DocumentText(r) == LineText(line, DocumentText(d))
    ensures DocumentActions(r) == EntryOf(line) + DocumentActions(d)
  {
    r := Document([line] + d.lines, d.last);
    assert r.lines[1..] == d.lines;
  }

  /** A document with a gap in front, filler by filler. */
  lemma {:induction false} GapInFront(g: Gap, d: Document) returns (r: Document)
    requires GapFits(g, DocumentText(d)) && LinesFit(d.lines, LastText(d.last))
    ensures LinesFit(r.lines, LastText(r.last)) && r.last == d.last && HasItem(r.lines) == HasItem(d.lines)
    ensures DocumentText(r) == GapText(g, DocumentText(d)) && DocumentActions(r) == DocumentActions(d)
  {
    if g == [] {
      r := d;
    } else {
      r := GapInFront(g[1..], d);
      r := LineInFront(Aside(g[0]), r);
    }
  }

  lemma {:induction false} ItemsShape(s: string) returns (d: Document)
    requires Skip(ParseItems(s).1) == ""
    ensures LinesFit(d.lines, LastText(d.last)) && (d.last.Some? ==> ActionFits(d.last.value, ""))
    ensures ParseItem(Skip(s)).Done? ==> d.last.Some? || HasItem(d.lines)
    ensures DocumentText(d) == s && DocumentActions(d) == ParseItems(s).0
    decreases |s|
  {
    var g := SkipShape(s);
    d := Document([], None);
    if ParseItem(Skip(s)).Done? {
      var line, last := ItemShape(Skip(s));
      if last.Some? {
        d := Document([], last);
      } else {
        d := ItemsShape(ParseItem(Skip(s)).rest);
        d := LineInFront(line.value, d);
      }
    }
    d := GapInFront(g, d);
  }

  /** Every accepted text is the text of a document that fits, and the actions read are those of the document. */
  lemma {:induction false} AcceptedIsDocument(s: string)
    requires ParseManifest(s).Some?
    ensures exists d ::
      DocumentFits(d) && DocumentText(d) == s && DocumentActions(d) == ParseManifest(s).value
  {
    var d := ItemsShape(s);
    assert DocumentFits(d);
  }

  lemma {:induction false} EntryKeywords(lines: seq<Line>, rest: string)
    requires LinesFit(lines, rest)
    ensures forall p :: p in Entries(lines) ==> p.keyword in KEYWORDS
  {
    if lines == [] {
    } else {
      EntryKeywords(lines[1..], rest);
    }
  }

  /** No text yields an action with an unknown keyword. */
  lemma {:induction false} KeywordsAreKnown(s: string)
    requires ParseManifest(s).Some?
    ensures forall p :: p in ParseManifest(s).value ==> p.keyword in KEYWORDS
  {
    AcceptedIsDocument(s);
    var d :| DocumentFits(d) && DocumentText(d) == s && DocumentActions(d) == ParseManifest(s).value;
    EntryKeywords(d.lines, LastText(d.last));
  }
}
