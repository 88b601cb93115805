/**
 The layouts of a list of actions as manifest text: every choice the grammar leaves to whoever writes
 a manifest. A layout *fits* the text that follows it when the grammar takes the two apart where the
 layout says; fitting looks at the next characters only. The layouts that fit are exactly what the
 grammar accepts (`ManifestReading.AcceptedExactlyWhen`). *Good* layouts are a plainer class that fits
 whatever follows.

 Printers take the text that follows as their last argument.
 */
module ManifestLayout {
  import opened Prelude
  import opened Text
  import opened ManifestGrammar

  // ---- The next characters ----

  predicate OneLine(text: string) {
    '\n' !in text && '\r' !in text
  }

  predicate StartsNewline(s: string) {
    s != "" && !OneLine([s[0]])
  }

  /** A space, a tab, or a backslash that continues the line. */
  predicate StartsBlank(s: string) {
    s != "" && (s[0] in " \t" || (s[0] == '\\' && StartsNewline(s[1..])))
  }

  /** A hash sign with a newline somewhere after it. */
  predicate StartsComment(s: string) {
    s != "" && s[0] == '#' && !OneLine(s)
  }

  /** Text at which nothing is skipped. */
  predicate Settled(s: string) {
    !StartsBlank(s) && !StartsComment(s)
  }

  /** Text that ends a bare value. */
  predicate Ender(s: string) {
    s == "" || StartsBlank(s) || StartsNewline(s)
  }

  lemma NewlineStarts(s: string)
    ensures NewlineLength(s) > 0 <==> StartsNewline(s)
  {
  }

  lemma BlankStarts(s: string)
    ensures BlankLength(s) > 0 <==> StartsBlank(s)
  {
    if s != "" {
      NewlineStarts(s[1..]);
    }
  }

  lemma {:induction false} LineLengthStops(s: string)
    ensures OneLine(s[..LineLength(s)])
    ensures LineLength(s) < |s| ==> StartsNewline(s[LineLength(s)..])
    ensures OneLine(s) <==> LineLength(s) == |s|
  {
    NewlineStarts(s);
    if s == "" || StartsNewline(s) {
      assert s != "" ==> s[0] in s;
      assert s[0..] == s;
    } else {
      var n := LineLength(s[1..]);
      LineLengthStops(s[1..]);
      assert s[..n + 1] == [s[0]] + s[1..][..n] && s[n + 1..] == s[1..][n..];
      assert s == [s[0]] + s[1..];
    }
  }

  lemma CommentStarts(s: string)
    ensures CommentLength(s) > 0 <==> StartsComment(s)
  {
    if s != "" && s[0] == '#' {
      LineLengthStops(s[1..]);
      NewlineStarts(s[1..][LineLength(s[1..])..]);
      assert s == [s[0]] + s[1..];
    }
  }

  lemma {:induction false} SkipSettled(s: string)
    ensures Settled(s) <==> Skip(s) == s
  {
    BlankStarts(s);
    CommentStarts(s);
    SkipShortens(s);
  }

  lemma {:induction false} SkipShortens(s: string)
    ensures BlankLength(s) > 0 || CommentLength(s) > 0 ==> |Skip(s)| < |s|
  {
  }

  lemma {:induction false} SkipTwice(s: string)
    ensures Skip(Skip(s)) == Skip(s)
    decreases |s|
  {
    if BlankLength(s) > 0 {
      SkipTwice(s[BlankLength(s)..]);
    } else if CommentLength(s) > 0 {
      SkipTwice(s[CommentLength(s)..]);
    }
  }

  // ---- Gaps ----

  /** How a line may end. */
  datatype Ending = LF | CRLF | CR

  function Newline(e: Ending): (s: string)
    ensures 1 <= |s| <= 2 && StartsNewline(s)
  {
    match e case LF => "\n" case CRLF => "\r\n" case CR => "\r"
  }

  /** A lone carriage return would join a line feed that follows it. */
  predicate EndingFits(e: Ending, rest: string) {
    e == CR ==> !("\n" <= rest)
  }

  lemma NewlineLengthOf(e: Ending, rest: string)
    requires EndingFits(e, rest)
    ensures NewlineLength(Newline(e) + rest) == |Newline(e)| && (Newline(e) + rest)[|Newline(e)|..] == rest
  {
    var s := Newline(e) + rest;
    if e == LF {
      assert s[0] == '\n';
    } else {
      assert s[0] == '\r' && "\n"[0] == '\n';
      assert e == CRLF ==> s[..2] == "\r\n";
      assert e == CR && |s| > 1 ==> s[1] == rest[0] && "\r\n"[1] == '\n' && rest[..1] == [rest[0]];
    }
  }

  /** What may fill a gap between two tokens. */
  datatype Filler = Space | Tab | Continued(end: Ending) | Comment(text: string, end: Ending)

  type Gap = seq<Filler>

  function FillerText(f: Filler, rest: string): string {
    match f
    case Space => " " + rest
    case Tab => "\t" + rest
    case Continued(e) => "\\" + (Newline(e) + rest)
    case Comment(text, e) => "#" + (text + (Newline(e) + rest))
  }

  function GapText(g: Gap, rest: string): string {
    if g == [] then rest else FillerText(g[0], GapText(g[1..], rest))
  }

  predicate FillerFits(f: Filler, rest: string) {
    match f
    case Continued(e) => EndingFits(e, rest)
    case Comment(text, e) => OneLine(text) && EndingFits(e, rest)
    case _ => true
  }

  predicate GapFits(g: Gap, rest: string) {
    g == [] || (FillerFits(g[0], GapText(g[1..], rest)) && GapFits(g[1..], rest))
  }

  lemma {:induction false} LineLengthOf(text: string, e: Ending, rest: string)
    requires OneLine(text) && EndingFits(e, rest)
    ensures LineLength(text + (Newline(e) + rest)) == |text|
  {
    var s := text + (Newline(e) + rest);
    if text == "" {
      assert s == Newline(e) + rest;
      NewlineLengthOf(e, rest);
    } else {
      assert s[0] == text[0] && text[0] in text;
      NewlineStarts(s);
      assert s[1..] == text[1..] + (Newline(e) + rest);
      LineLengthOf(text[1..], e, rest);
    }
  }

  lemma CommentLengthOf(text: string, e: Ending, rest: string)
    requires OneLine(text) && EndingFits(e, rest)
    ensures CommentLength("#" + (text + (Newline(e) + rest))) == 1 + |text| + |Newline(e)|
  {
    var s := "#" + (text + (Newline(e) + rest));
    assert s[1..] == text + (Newline(e) + rest);
    LineLengthOf(text, e, rest);
    assert s[1..][|text|..] == Newline(e) + rest;
    NewlineLengthOf(e, rest);
  }

  lemma {:induction false} SkipBlank(s: string, n: nat)
    requires n > 0 && BlankLength(s) == n
    ensures Skip(s) == Skip(s[n..])
  {
  }

  lemma {:induction false} SkipComment(text: string, e: Ending, rest: string)
    requires OneLine(text) && EndingFits(e, rest)
    ensures Skip("#" + (text + (Newline(e) + rest))) == Skip(rest)
  {
    var s := "#" + (text + (Newline(e) + rest));
    CommentLengthOf(text, e, rest);
    assert s[CommentLength(s)..] == rest;
  }

  lemma {:induction false} SkipFiller(f: Filler, rest: string)
    requires FillerFits(f, rest)
    ensures Skip(FillerText(f, rest)) == Skip(rest)
  {
    var s := FillerText(f, rest);
    match f
    case Space => assert s[1..] == rest;
    case Tab => assert s[1..] == rest;
    case Continued(e) =>
      assert s[1..] == Newline(e) + rest;
      NewlineLengthOf(e, rest);
      SkipBlank(s, 1 + |Newline(e)|);
      DropDrop(s, 1, |Newline(e)|);
    case Comment(text, e) => SkipComment(text, e, rest);
  }

  /** Any mix of blanks, continued lines and comments is skipped. */
  lemma {:induction false} SkipGap(g: Gap, rest: string)
    requires GapFits(g, rest)
    ensures Skip(GapText(g, rest)) == Skip(rest)
  {
    if g == [] {
    } else {
      SkipFiller(g[0], GapText(g[1..], rest));
      SkipGap(g[1..], rest);
    }
  }

  // ---- Values ----

  predicate GoodName(name: string) {
    name != "" && forall c :: c in name ==> NameChar(c)
  }

  function Quoted(v: string): string {
    "\"" + v + "\""
  }

  function WrittenValue(text: string, quoted: bool): string {
    if quoted then Quoted(text) else text
  }

  /**
   A quoted value holds no quote. A bare one has neither blanks nor newlines and stands before one; its
   end does not join a newline to a continuation, its start opens neither a comment nor a quoted value
   that is closed later on.
   */
  predicate ValueFits(text: string, quoted: bool, rest: string) {
    if quoted then '"' !in text
    else
      && text != "" && (forall c :: c in text ==> c !in " \t\n\r") && Ender(rest)
      && (text[|text| - 1] == '\\' ==> !StartsNewline(rest))
      && (text[0] == '#' ==> OneLine(rest))
      && (text[0] == '"' ==> '"' !in text[1..] && '"' !in rest)
  }

  lemma EnderIsNoName(s: string)
    requires Ender(s)
    ensures s == "" || !NameChar(s[0])
  {
  }

  lemma {:induction false} NameLengthOf(name: string, rest: string)
    requires forall c :: c in name ==> NameChar(c)
    requires rest == "" || !NameChar(rest[0])
    ensures NameLength(name + rest) == |name|
  {
    if name == "" {
      assert name + rest == rest;
    } else {
      assert (name + rest)[0] == name[0] && (name + rest)[1..] == name[1..] + rest;
      NameLengthOf(name[1..], rest);
    }
  }

  lemma {:induction false} BareLengthOf(v: string, rest: string)
    requires (forall c :: c in v ==> c !in " \t\n\r") && Ender(rest)
    requires v != "" && v[|v| - 1] == '\\' ==> !StartsNewline(rest)
    ensures BareLength(v + rest) == |v|
  {
    var s := v + rest;
    BlankStarts(s);
    NewlineStarts(s);
    if v == "" {
      assert s == rest;
    } else {
      assert v[0] in v && s[0] == v[0] && s[1..] == v[1..] + rest;
      assert |v| > 1 ==> v[1] in v && s[1..][0] == v[1];
      assert |v| == 1 ==> s[1..] == rest;
      BareLengthOf(v[1..], rest);
    }
  }

  lemma {:induction false} UntilLengthOf(v: string, stop: char, rest: string)
    requires stop !in v
    ensures UntilLength(v + ([stop] + rest), stop) == |v|
  {
    if v == "" {
      assert v + ([stop] + rest) == [stop] + rest;
    } else {
      var s := v + ([stop] + rest);
      assert s[0] == v[0] && s[1..] == v[1..] + ([stop] + rest);
      UntilLengthOf(v[1..], stop, rest);
    }
  }

  lemma {:induction false} UntilNothing(s: string, stop: char)
    requires stop !in s
    ensures UntilLength(s, stop) == |s|
  {
    if s == "" {
    } else {
      assert s[0] in s;
      UntilNothing(s[1..], stop);
    }
  }

  lemma QuotedLengthOf(v: string, rest: string)
    requires '"' !in v
    ensures QuotedLength("\"" + (v + ("\"" + rest))) == |v| + 2
  {
    var s := "\"" + (v + ("\"" + rest));
    assert s[1..] == v + (['"'] + rest);
    UntilLengthOf(v, '"', rest);
  }

  /** A quote that is never closed does not start a quoted value. */
  lemma Unquoted(text: string, rest: string)
    requires text != "" && (text[0] == '"' ==> '"' !in text[1..] && '"' !in rest)
    ensures QuotedLength(text + rest) == 0
  {
    var s := text + rest;
    assert s[0] == text[0] && s[1..] == text[1..] + rest;
    if s[0] == '"' {
      UntilNothing(s[1..], '"');
    }
  }

  lemma BareSettled(text: string, rest: string)
    requires ValueFits(text, false, rest)
    ensures Settled(text + rest)
  {
    var s := text + rest;
    assert text[0] in text && s[0] == text[0] && s[1..] == text[1..] + rest;
    assert |text| > 1 ==> text[1] in text && s[1..][0] == text[1];
    assert |text| == 1 ==> s[1..] == rest;
    if text[0] == '#' {
      assert OneLine(text);
    }
  }

  /** A value that fits is read whole, and nothing is skipped before it. */
  lemma ValueLengthOf(text: string, quoted: bool, rest: string)
    requires ValueFits(text, quoted, rest)
    ensures var s := WrittenValue(text, quoted) + rest;
      ValueLength(s) == |WrittenValue(text, quoted)| > 0 && Settled(s)
  {
    if quoted {
      assert Quoted(text) + rest == "\"" + (text + ("\"" + rest));
      QuotedLengthOf(text, rest);
    } else {
      Unquoted(text, rest);
      BareLengthOf(text, rest);
      BareSettled(text, rest);
    }
  }

  // ---- Properties ----

  datatype LaidProperty = LaidProperty(
    name: string, value: string, before: Gap, left: Gap, right: Gap, quoted: bool)

  function Written(p: LaidProperty): string {
    WrittenValue(p.value, p.quoted)
  }

  function PropertyText(p: LaidProperty, rest: string): string {
    p.name + GapText(p.left, "=" + GapText(p.right, Written(p) + rest))
  }

  predicate PropertyFits(p: LaidProperty, rest: string) {
    && GoodName(p.name) && ValueFits(p.value, p.quoted, rest)
    && GapFits(p.right, Written(p) + rest) && GapFits(p.left, "=" + GapText(p.right, Written(p) + rest))
  }

  lemma GapIsNoName(g: Gap, rest: string)
    requires rest == "" || !NameChar(rest[0])
    ensures var s := GapText(g, rest); s == "" || !NameChar(s[0])
  {
  }

  /** Putting the parts of a property together. */
  lemma PropertyAssembles(name: string, after: string, x: string, v: string, rest: string)
    requires NameLength(name + after) == |name| > 0
    requires Skip(after) == "=" + x && Skip(x) == v + rest && ValueLength(v + rest) == |v| > 0
    ensures ParseProperty(name + after) == Done(PropertyPair(name, v), rest)
  {
    assert (name + after)[..|name|] == name && (name + after)[|name|..] == after;
    assert ("=" + x)[1..] == x;
    assert (v + rest)[..|v|] == v && (v + rest)[|v|..] == rest;
  }

  /** No property without an equals sign after its name. */
  lemma NoEqualsNoProperty(s: string, n: nat)
    requires NameLength(s) == n && (n > 0 ==> !("=" <= Skip(s[n..])))
    ensures ParseProperty(s).Fail?
  {
  }

  lemma {:induction false} PropertyParses(p: LaidProperty, rest: string)
    requires PropertyFits(p, rest)
    ensures ParseProperty(PropertyText(p, rest)) == Done(PropertyPair(p.name, Written(p)), rest)
  {
    var value := Written(p) + rest;
    var afterEquals := GapText(p.right, value);
    var afterName := GapText(p.left, "=" + afterEquals);
    GapIsNoName(p.left, "=" + afterEquals);
    NameLengthOf(p.name, afterName);
    SkipGap(p.left, "=" + afterEquals);
    SkipSettled("=" + afterEquals);
    SkipGap(p.right, value);
    ValueLengthOf(p.value, p.quoted, rest);
    SkipSettled(value);
    PropertyAssembles(p.name, afterName, afterEquals, Written(p), rest);
  }

  /** Some layout of a property, fitting what follows it, is at the front of the text. */
  ghost predicate StartsWithProperty(s: string) {
    exists p, rest :: PropertyFits(p, rest) && s == PropertyText(p, rest)
  }

  function PropertiesText(ps: seq<LaidProperty>, rest: string): string {
    if ps == [] then rest
    else GapText(ps[0].before, PropertyText(ps[0], PropertiesText(ps[1..], rest)))
  }

  function Pairs(ps: seq<LaidProperty>): seq<PropertyPair> {
    if ps == [] then [] else [PropertyPair(ps[0].name, Written(ps[0]))] + Pairs(ps[1..])
  }

  predicate PropertiesFit(ps: seq<LaidProperty>, rest: string) {
    ps == []
    || (var tail := PropertiesText(ps[1..], rest);
        && GapFits(ps[0].before, PropertyText(ps[0], tail)) && PropertyFits(ps[0], tail)
        && PropertiesFit(ps[1..], rest))
  }

  lemma NameSettled(s: string)
    requires s != "" && NameChar(s[0])
    ensures Settled(s) && !StartsNewline(s)
  {
    assert s[0] != ' ' && s[0] != '\t' && s[0] != '\\' && s[0] != '#' && s[0] != '\n' && s[0] != '\r';
  }

  lemma PropertySettled(p: LaidProperty, rest: string)
    requires GoodName(p.name)
    ensures PropertyText(p, rest) != "" && NameChar(PropertyText(p, rest)[0]) && Settled(PropertyText(p, rest))
  {
    assert PropertyText(p, rest)[0] == p.name[0] && p.name[0] in p.name;
    NameSettled(PropertyText(p, rest));
  }

  lemma {:induction false} SeparatedPropertyParses(p: LaidProperty, tail: string)
    requires GapFits(p.before, PropertyText(p, tail)) && PropertyFits(p, tail)
    ensures ParseProperty(Skip(GapText(p.before, PropertyText(p, tail))))
         == Done(PropertyPair(p.name, Written(p)), tail)
  {
    SkipGap(p.before, PropertyText(p, tail));
    PropertySettled(p, tail);
    SkipSettled(PropertyText(p, tail));
    PropertyParses(p, tail);
  }

  lemma {:induction false} MorePropertiesParse(ps: seq<LaidProperty>, rest: string)
    requires PropertiesFit(ps, rest) && ParseProperty(Skip(rest)).Fail?
    ensures MoreProperties(PropertiesText(ps, rest)) == (Pairs(ps), rest)
  {
    if ps == [] {
    } else {
      SeparatedPropertyParses(ps[0], PropertiesText(ps[1..], rest));
      MorePropertiesParse(ps[1..], rest);
    }
  }

  /** Reading properties at a place already skipped or not yet skipped differs in the leftover blanks only. */
  lemma {:induction false} SkippedProperties(s: string)
    ensures Properties(Skip(s)).0 == MoreProperties(s).0
    ensures Skip(Properties(Skip(s)).1) == Skip(MoreProperties(s).1)
  {
    SkipTwice(s);
  }

  // ---- Actions ----

  datatype LaidPayload = LaidPayload(before: Gap, text: string, quoted: bool)

  function WrittenPayload(p: LaidPayload): string {
    WrittenValue(p.text, p.quoted)
  }

  /** A payload stands only where no property can be read. */
  ghost predicate PayloadFits(p: LaidPayload, rest: string) {
    var s := WrittenPayload(p) + rest;
    GapFits(p.before, s) && ValueFits(p.text, p.quoted, rest) && !StartsWithProperty(s)
  }

  datatype LaidAction = LaidAction(
    keyword: string, payload: Option<LaidPayload>, properties: seq<LaidProperty>, trailing: Gap)

  const KEYWORDS: seq<string> := [
    "set", "depend", "dir", "file", "license", "hardlink", "link", "driver", "group", "user", "legacy"]

  function PayloadText(p: Option<LaidPayload>, rest: string): string {
    match p
    case None => rest
    case Some(payload) => GapText(payload.before, WrittenPayload(payload) + rest)
  }

  /** The action up to the end of its line. */
  function ActionText(a: LaidAction, rest: string): string {
    a.keyword + PayloadText(a.payload, PropertiesText(a.properties, GapText(a.trailing, rest)))
  }

  function PairOf(a: LaidAction): ActionPair {
    var payload := if a.payload.Some? then Some(WrittenPayload(a.payload.value)) else None;
    ActionPair(a.keyword, payload, Pairs(a.properties))
  }

  ghost predicate ActionFits(a: LaidAction, rest: string) {
    var close := GapText(a.trailing, rest);
    && a.keyword in KEYWORDS && (a.payload.Some? || a.properties != [])
    && (a.payload.Some? ==> PayloadFits(a.payload.value, PropertiesText(a.properties, close)))
    && PropertiesFit(a.properties, close) && GapFits(a.trailing, rest)
  }

  // ---- Transforms ----

  /** `<transform keyword property... -> operation>`, which the reader drops. */
  datatype LaidTransform = LaidTransform(
    start: Gap, keyword: string, properties: seq<LaidProperty>, before: Gap, after: Gap, operation: string)

  /** The transform from its arrow on. */
  function ArrowText(t: LaidTransform, rest: string): string {
    GapText(t.before, "->" + GapText(t.after, t.operation + (">" + rest)))
  }

  function TransformText(t: LaidTransform, rest: string): string {
    "<transform " + GapText(t.start, t.keyword + PropertiesText(t.properties, ArrowText(t, rest)))
  }

  predicate ArrowFits(t: LaidTransform, rest: string) {
    var tail := t.operation + (">" + rest);
    && GapFits(t.before, "->" + GapText(t.after, tail)) && GapFits(t.after, tail)
    && '>' !in t.operation && Settled(tail)
  }

  predicate TransformFits(t: LaidTransform, rest: string) {
    var close := ArrowText(t, rest);
    && GapFits(t.start, t.keyword + PropertiesText(t.properties, close))
    && t.keyword in KEYWORDS && t.properties != [] && PropertiesFit(t.properties, close) && ArrowFits(t, rest)
  }

  // ---- Documents ----

  /** A newline on its own, a blank or comment between actions, a transform, or an action with its newline. */
  datatype Line =
    | Blank(end: Ending)
    | Aside(filler: Filler)
    | Transform(transform: LaidTransform)
    | Entry(action: LaidAction, end: Ending)

  /** Some line is more than skipped text. */
  predicate HasItem(lines: seq<Line>) {
    lines != [] && (!lines[0].Aside? || HasItem(lines[1..]))
  }

  function LineText(line: Line, rest: string): string {
    match line
    case Blank(e) => Newline(e) + rest
    case Aside(f) => FillerText(f, rest)
    case Transform(t) => TransformText(t, rest)
    case Entry(a, e) => ActionText(a, Newline(e) + rest)
  }

  function LinesText(lines: seq<Line>, rest: string): string {
    if lines == [] then rest else LineText(lines[0], LinesText(lines[1..], rest))
  }

  function Entries(lines: seq<Line>): seq<ActionPair> {
    if lines == [] then []
    else EntryOf(lines[0]) + Entries(lines[1..])
  }

  function EntryOf(line: Line): seq<ActionPair> {
    if line.Entry? then [PairOf(line.action)] else []
  }

  ghost predicate LineFits(line: Line, rest: string) {
    match line
    case Blank(e) => EndingFits(e, rest)
    case Aside(f) => FillerFits(f, rest)
    case Transform(t) => TransformFits(t, rest)
    case Entry(a, e) => EndingFits(e, rest) && ActionFits(a, Newline(e) + rest)
  }

  ghost predicate LinesFit(lines: seq<Line>, rest: string) {
    lines == [] || (LineFits(lines[0], LinesText(lines[1..], rest)) && LinesFit(lines[1..], rest))
  }

  /** A manifest: lines, and perhaps a last action that ends with the text instead of a newline. */
  datatype Document = Document(lines: seq<Line>, last: Option<LaidAction>)

  function LastText(last: Option<LaidAction>): string {
    if last.Some? then ActionText(last.value, "") else ""
  }

  function LastEntry(last: Option<LaidAction>): seq<ActionPair> {
    if last.Some? then [PairOf(last.value)] else []
  }

  function DocumentText(d: Document): string {
    LinesText(d.lines, LastText(d.last))
  }

  function DocumentActions(d: Document): seq<ActionPair> {
    Entries(d.lines) + LastEntry(d.last)
  }

  ghost predicate DocumentFits(d: Document) {
    && LinesFit(d.lines, LastText(d.last)) && (d.last.Some? ==> ActionFits(d.last.value, ""))
    && (d.last.Some? || HasItem(d.lines))
  }

  // ---- Good layouts: sufficient conditions that do not look at the text that follows ----

  predicate GoodFiller(f: Filler) {
    match f
    case Continued(e) => e != CR
    case Comment(text, e) => OneLine(text) && e != CR
    case _ => true
  }

  predicate GoodGap(g: Gap) {
    forall f :: f in g ==> GoodFiller(f)
  }

  /** A gap that ends the token before it: not a comment mark glued to it. */
  predicate Separates(g: Gap) {
    GoodGap(g) && g != [] && !g[0].Comment?
  }

  /** A value that may be written without quotes. */
  predicate BareText(v: string) {
    v != "" && v[0] != '#' && forall c :: c in v ==> c !in " \t\n\r\"\\"
  }

  /** A value that may be written in quotes and read back. */
  predicate CleanText(v: string) {
    '"' !in v && '\\' !in v
  }

  predicate GoodProperty(p: LaidProperty) {
    && GoodName(p.name) && CleanText(p.value) && (p.quoted || BareText(p.value))
    && Separates(p.before) && GoodGap(p.left) && GoodGap(p.right)
  }

  predicate GoodProperties(ps: seq<LaidProperty>) {
    forall p :: p in ps ==> GoodProperty(p)
  }

  /** Bare text that does not start as a property would, nor with a name glued to a comment mark. */
  predicate BarePayload(text: string) {
    var n := NameLength(text);
    BareText(text) && (n == 0 || n == |text| || text[n] !in "=#")
  }

  predicate GoodPayload(p: LaidPayload) {
    Separates(p.before) && if p.quoted then '"' !in p.text else BarePayload(p.text)
  }

  predicate GoodAction(a: LaidAction) {
    && a.keyword in KEYWORDS
    && (a.payload.Some? ==> GoodPayload(a.payload.value))
    && (a.payload.None? ==> a.properties != [])
    && GoodProperties(a.properties)
    && (a.trailing == [] || Separates(a.trailing))
  }

  predicate GoodTransform(t: LaidTransform) {
    && GoodGap(t.start) && t.keyword in KEYWORDS && t.properties != [] && GoodProperties(t.properties)
    && Separates(t.before) && GoodGap(t.after)
    && '>' !in t.operation && (t.operation == "" || t.operation[0] !in " \t#\\")
  }

  predicate GoodLine(line: Line) {
    match line
    case Blank(e) => e != CR
    case Aside(f) => GoodFiller(f)
    case Transform(t) => GoodTransform(t)
    case Entry(a, e) => GoodAction(a) && e != CR
  }

  predicate GoodLines(lines: seq<Line>) {
    forall l :: l in lines ==> GoodLine(l)
  }

  predicate GoodDocument(d: Document) {
    && GoodLines(d.lines) && (d.last.Some? ==> GoodAction(d.last.value))
    && (d.last.Some? || HasItem(d.lines))
  }
}
