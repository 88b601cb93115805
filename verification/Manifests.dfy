/** Manifests: typed records collected from the actions of a text. */
module Manifests {
  import opened Prelude
  import opened Text
  import opened Digests
  import opened Properties
  import opened Actions
  import opened ManifestGrammar
  import opened ManifestLayout
  import opened ManifestSoundness
  import opened ManifestReading

  /** The six lists of a manifest. */
  datatype Contents = Contents(
    attributes: seq<Attr>, directories: seq<Dir>, files: seq<File>,
    dependencies: seq<Dependency>, licenses: seq<License>, links: seq<Link>)

  const EMPTY := Contents([], [], [], [], [], [])

  function Joined(a: Contents, b: Contents): Contents {
    Contents(a.attributes + b.attributes, a.directories + b.directories, a.files + b.files,
             a.dependencies + b.dependencies, a.licenses + b.licenses, a.links + b.links)
  }

  // ---- Adding actions ----

  /** What one action contributes; none where the code panics: unsupported kinds and malformed digests. */
  function Contribution(a: Action): Option<Contents> {
    match a.kind
    case AttrKind => Some(EMPTY.(attributes := [AttrOf(WithPayload(a))]))
    case DirKind => Some(EMPTY.(directories := [DirOf(WithPayload(a))]))
    case FileKind => (match FileOf(a) case None => None case Some(f) => Some(EMPTY.(files := [f])))
    case DependencyKind => Some(EMPTY.(dependencies := [DependencyOf(WithPayload(a))]))
    case LicenseKind => Some(EMPTY.(licenses := [LicenseOf(a.payload, a.properties)]))
    case LinkKind => Some(EMPTY.(links := [LinkOf(WithPayload(a))]))
    case _ => None
  }

  /** Which words the reader knows, and how. */
  lemma KindOfWord(word: string)
    ensures KindOf(word) == AttrKind <==> word == "set"
    ensures KindOf(word) == DirKind <==> word == "dir"
    ensures KindOf(word) == FileKind <==> word == "file"
    ensures KindOf(word) == DependencyKind <==> word == "depend"
    ensures KindOf(word) == LicenseKind <==> word == "license"
    ensures KindOf(word) == LinkKind <==> word == "link" || word == "hardlink"
  {
  }

  /**
   Each kind fills its own list and no other; the kinds the code does not handle and files with
   malformed digests fill none.
   */
  lemma KindChoosesList(a: Action)
    ensures Contribution(a).Some? <==>
      if a.kind == FileKind then FileOf(a).Some?
      else a.kind in {AttrKind, DirKind, DependencyKind, LicenseKind, LinkKind}
    ensures Contribution(a).Some? ==>
      var c := Contribution(a).value;
      && |c.attributes| == (if a.kind == AttrKind then 1 else 0)
      && |c.directories| == (if a.kind == DirKind then 1 else 0)
      && |c.files| == (if a.kind == FileKind then 1 else 0)
      && |c.dependencies| == (if a.kind == DependencyKind then 1 else 0)
      && |c.licenses| == (if a.kind == LicenseKind then 1 else 0)
      && |c.links| == (if a.kind == LinkKind then 1 else 0)
  {
  }

  /** Two contributions, or a failure when either failed. */
  function Both(a: Option<Contents>, b: Option<Contents>): Option<Contents> {
    if a.Some? && b.Some? then Some(Joined(a.value, b.value)) else None
  }

  /** The manifest of a list of actions, built by adding them in order. */
  function Collected(actions: seq<Action>): Option<Contents> {
    if actions == [] then Some(EMPTY)
    else Both(Collected(actions[..|actions| - 1]), Contribution(actions[|actions| - 1]))
  }

  lemma JoinedLaws(a: Contents, b: Contents, c: Contents)
    ensures Joined(a, EMPTY) == a && Joined(Joined(a, b), c) == Joined(a, Joined(b, c))
  {
  }

  lemma BothLaws(a: Option<Contents>, b: Option<Contents>, c: Option<Contents>)
    ensures Both(a, Some(EMPTY)) == a && Both(Both(a, b), c) == Both(a, Both(b, c))
  {
    if a.Some? {
      JoinedLaws(a.value, if b.Some? then b.value else EMPTY, if c.Some? then c.value else EMPTY);
    }
  }

  lemma CollectedOneMore(xs: seq<Action>, a: Action)
    ensures Collected(xs + [a]) == Both(Collected(xs), Contribution(a))
  {
  }

  /** The manifest of two lists of actions is, list by list, the manifests of both; it fails when either does. */
  lemma {:induction false} CollectedConcat(xs: seq<Action>, ys: seq<Action>)
    ensures Collected(xs + ys) == Both(Collected(xs), Collected(ys))
  {
    if ys == [] {
      assert xs + ys == xs;
      BothLaws(Collected(xs), None, None);
    } else {
      var init, last := ys[..|ys| - 1], ys[|ys| - 1];
      assert xs + ys == (xs + init) + [last];
      CollectedOneMore(xs + init, last);
      CollectedConcat(xs, init);
      BothLaws(Collected(xs), Collected(init), Contribution(last));
    }
  }

  lemma {:induction false} FailureStays(actions: seq<Action>, n: nat)
    requires n <= |actions| && Collected(actions[..n]).None?
    ensures Collected(actions).None?
  {
    assert actions[..n] + actions[n..] == actions;
    CollectedConcat(actions[..n], actions[n..]);
  }

  /** Joining leaves alone the lists to which nothing is added. */
  lemma JoinedKeeps(a: Contents, b: Contents)
    ensures b.attributes == [] ==> Joined(a, b).attributes == a.attributes
    ensures b.directories == [] ==> Joined(a, b).directories == a.directories
    ensures b.files == [] ==> Joined(a, b).files == a.files
    ensures b.dependencies == [] ==> Joined(a, b).dependencies == a.dependencies
    ensures b.licenses == [] ==> Joined(a, b).licenses == a.licenses
    ensures b.links == [] ==> Joined(a, b).links == a.links
  {
  }

  class Manifest {
    var attributes: seq<Attr>
    var directories: seq<Dir>
    var files: seq<File>
    var dependencies: seq<Dependency>
    var licenses: seq<License>
    var links: seq<Link>

    ghost function View(): Contents
      reads this
    {
      Contents(attributes, directories, files, dependencies, licenses, links)
    }

    constructor ()
      ensures View() == EMPTY
    {
      attributes, directories, files, dependencies, licenses, links := [], [], [], [], [], [];
    }

    method AddFile(f: File)
      modifies this
      ensures View() == Joined(old(View()), EMPTY.(files := [f]))
    {
      files := files + [f];
    }

    /** Adds one action; false where the code panics, and then nothing has changed. */
    method AddAction(a: Action) returns (ok: bool)
      modifies this
      ensures ok <==> Contribution(a).Some?
      ensures View() == if ok then Joined(old(View()), Contribution(a).value) else old(View())
    {
      ok := true;
      if Contribution(a).Some? {
        JoinedKeeps(View(), Contribution(a).value);
      }
      match a.kind {
        case AttrKind =>
          var r := ConvertAttr(a);
          attributes := attributes + [r];
        case DirKind =>
          var r := ConvertDir(a);
          directories := directories + [r];
        case FileKind =>
          var r := ConvertFile(a);
          if r.None? { return false; }
          files := files + [r.value];
        case DependencyKind =>
          var r := ConvertDependency(a);
          dependencies := dependencies + [r];
        case LicenseKind =>
          var r := ConvertLicense(a);
          licenses := licenses + [r];
        case LinkKind =>
          var r := ConvertLink(a);
          links := links + [r];
        case _ => return false;
      }
    }
  }

  // ---- Reading text ----

  datatype Outcome<+T> = Read(value: T) | SyntaxError | Panic

  function PropertyOf(p: PropertyPair): Property {
    Property(p.name, Clean(p.text))
  }

  function PropertiesOf(ps: seq<PropertyPair>): seq<Property> {
    if ps == [] then [] else PropertiesOf(ps[..|ps| - 1]) + [PropertyOf(ps[|ps| - 1])]
  }

  /** The action the reader makes of a pair: values cleaned, a payload kept as written. */
  function ActionOf(p: ActionPair): Action {
    Action(KindOf(p.keyword), if p.payload.Some? then p.payload.value else "", PropertiesOf(p.properties))
  }

  function ActionsOf(ps: seq<ActionPair>): seq<Action> {
    if ps == [] then [] else ActionsOf(ps[..|ps| - 1]) + [ActionOf(ps[|ps| - 1])]
  }

  function ParsedString(text: string): Outcome<Contents> {
    match ParseManifest(text)
    case None => SyntaxError
    case Some(pairs) => (match Collected(ActionsOf(pairs)) case None => Panic case Some(c) => Read(c))
  }

  method ParseString(text: string) returns (r: Outcome<Manifest>)
    ensures match ParsedString(text)
      case SyntaxError => r.SyntaxError?
      case Panic => r.Panic?
      case Read(c) => r.Read? && fresh(r.value) && r.value.View() == c
  {
    var m := new Manifest();
    var parsed := ParseManifest(text);
    if parsed.None? {
      return SyntaxError;
    }
    var pairs := parsed.value;
    for i := 0 to |pairs|
      invariant fresh(m) && Collected(ActionsOf(pairs[..i])) == Some(m.View())
    {
      var pair := pairs[i];
      var properties: seq<Property> := [];
      for j := 0 to |pair.properties|
        invariant properties == PropertiesOf(pair.properties[..j])
      {
        assert pair.properties[..j + 1][..j] == pair.properties[..j];
        properties := properties + [PropertyOf(pair.properties[j])];
      }
      assert pair.properties[..|pair.properties|] == pair.properties;
      var payload := if pair.payload.Some? then pair.payload.value else "";
      var action := Action(KindOf(pair.keyword), payload, properties);
      CollectedSnoc(pairs, i);
      var ok := m.AddAction(action);
      if !ok {
        ActionsPrefix(pairs, i + 1);
        FailureStays(ActionsOf(pairs), i + 1);
        return Panic;
      }
    }
    assert pairs[..|pairs|] == pairs;
    return Read(m);
  }

  lemma CollectedSnoc(pairs: seq<ActionPair>, i: nat)
    requires i < |pairs| && Collected(ActionsOf(pairs[..i])).Some?
    ensures Collected(ActionsOf(pairs[..i + 1])) == match Contribution(ActionOf(pairs[i]))
      case None => None
      case Some(one) => Some(Joined(Collected(ActionsOf(pairs[..i])).value, one))
  {
    assert pairs[..i + 1][..i] == pairs[..i];
    var actions := ActionsOf(pairs[..i + 1]);
    assert actions[..|actions| - 1] == ActionsOf(pairs[..i]);
  }

  lemma {:induction false} ActionsPrefix(pairs: seq<ActionPair>, n: nat)
    requires n <= |pairs|
    ensures |ActionsOf(pairs)| == |pairs| && ActionsOf(pairs)[..n] == ActionsOf(pairs[..n])
  {
    if n < |pairs| {
      assert pairs[..|pairs| - 1][..n] == pairs[..n];
      ActionsPrefix(pairs[..|pairs| - 1], n);
    } else {
      assert pairs[..n] == pairs;
      if pairs != [] {
        ActionsPrefix(pairs[..|pairs| - 1], |pairs| - 1);
      }
    }
  }

  lemma {:induction false} ActionsConcat(xs: seq<ActionPair>, ys: seq<ActionPair>)
    ensures ActionsOf(xs + ys) == ActionsOf(xs) + ActionsOf(ys)
  {
    if ys == [] {
      assert xs + ys == xs;
    } else {
      var n := |ys| - 1;
      assert (xs + ys)[..|xs + ys| - 1] == xs + ys[..n];
      ActionsConcat(xs, ys[..n]);
    }
  }

  // ---- The round trip ----

  /** The action a layout stands for: its payload as written, its values without quotes and backslashes. */
  function Meant(a: LaidAction): Action {
    var payload := if a.payload.Some? then WrittenPayload(a.payload.value) else "";
    Action(KindOf(a.keyword), payload, MeantProperties(a.properties))
  }

  function MeantProperties(ps: seq<LaidProperty>): seq<Property> {
    if ps == [] then [] else [Property(ps[0].name, Clean(ps[0].value))] + MeantProperties(ps[1..])
  }

  function MeantLines(lines: seq<Line>): seq<Action> {
    if lines == [] then []
    else (if lines[0].Entry? then [Meant(lines[0].action)] else []) + MeantLines(lines[1..])
  }

  function MeantDocument(d: Document): seq<Action> {
    MeantLines(d.lines) + if d.last.Some? then [Meant(d.last.value)] else []
  }

  /** The quotes around a value are not part of it. */
  lemma CleanWritten(text: string, quoted: bool)
    ensures Clean(WrittenValue(text, quoted)) == Clean(text)
  {
    var drop := {'"', '\\'};
    if quoted {
      WithoutConcat("\"" + text, "\"", drop);
      WithoutConcat("\"", text, drop);
      assert Without("\"", drop) == "";
      assert "" + Clean(text) == Clean(text) && Clean(text) + "" == Clean(text);
    }
  }

  /** A clean value is meant as it is. */
  lemma CleanIsMeant(text: string)
    requires CleanText(text)
    ensures Clean(text) == text
  {
    WithoutNothing(text, {'"', '\\'});
  }

  lemma {:induction false} PropertiesCons(p: PropertyPair, ps: seq<PropertyPair>)
    ensures PropertiesOf([p] + ps) == [PropertyOf(p)] + PropertiesOf(ps)
  {
    if ps == [] {
      assert [p] + ps == [p];
      assert [p][..0] == [];
    } else {
      var n := |ps| - 1;
      assert ([p] + ps)[..n + 1] == [p] + ps[..n];
      PropertiesCons(p, ps[..n]);
    }
  }

  lemma {:induction false} PropertiesMeant(ps: seq<LaidProperty>)
    ensures PropertiesOf(Pairs(ps)) == MeantProperties(ps)
  {
    if ps == [] {
    } else {
      CleanWritten(ps[0].value, ps[0].quoted);
      PropertiesMeant(ps[1..]);
      PropertiesCons(PropertyPair(ps[0].name, Written(ps[0])), Pairs(ps[1..]));
    }
  }

  lemma ActionMeant(a: LaidAction)
    ensures ActionOf(PairOf(a)) == Meant(a)
  {
    PropertiesMeant(a.properties);
  }

  lemma {:induction false} LinesMeant(lines: seq<Line>)
    ensures ActionsOf(Entries(lines)) == MeantLines(lines)
  {
    if lines == [] {
    } else {
      LinesMeant(lines[1..]);
      ActionsConcat(EntryOf(lines[0]), Entries(lines[1..]));
      if lines[0].Entry? {
        ActionMeant(lines[0].action);
        OneAction(PairOf(lines[0].action));
      }
    }
  }

  lemma OneAction(p: ActionPair)
    ensures ActionsOf([p]) == [ActionOf(p)]
  {
  }

  lemma DocumentMeant(d: Document)
    ensures ActionsOf(DocumentActions(d)) == MeantDocument(d)
  {
    LinesMeant(d.lines);
    ActionsConcat(Entries(d.lines), LastEntry(d.last));
    if d.last.Some? {
      ActionMeant(d.last.value);
      OneAction(PairOf(d.last.value));
    }
  }

  function Finished(actions: seq<Action>): Outcome<Contents> {
    match Collected(actions) case None => Panic case Some(c) => Read(c)
  }

  /**
   The round trip: any layout that fits reads as the manifest that adding its actions builds. Kind,
   payload, keys and values come from the actions alone.
   */
  lemma {:induction false} ManifestRoundTrip(d: Document)
    requires DocumentFits(d)
    ensures ParsedString(DocumentText(d)) == Finished(MeantDocument(d))
  {
    DocumentParses(d);
    DocumentMeant(d);
  }

  /** Layout independence: documents with the same actions read alike, however blanks, comments and quotes differ. */
  lemma {:induction false} LayoutDoesNotMatter(d: Document, e: Document)
    requires DocumentFits(d) && DocumentFits(e) && MeantDocument(d) == MeantDocument(e)
    ensures ParsedString(DocumentText(d)) == ParsedString(DocumentText(e))
  {
    ManifestRoundTrip(d);
    ManifestRoundTrip(e);
  }

  lemma {:induction false} ConcatenationReads(lines: seq<Line>, d: Document)
    requires LinesFit(lines, DocumentText(d)) && DocumentFits(d)
    ensures ParsedString(LinesText(lines, "") + DocumentText(d)) == Finished(MeantLines(lines) + MeantDocument(d))
  {
    ConcatenationParses(lines, d);
    LinesMeant(lines);
    DocumentMeant(d);
    ActionsConcat(Entries(lines), DocumentActions(d));
  }

  lemma {:induction false} LinesRead(lines: seq<Line>)
    requires LinesFit(lines, "") && HasItem(lines)
    ensures ParsedString(LinesText(lines, "")) == Finished(MeantLines(lines))
  {
    ManifestRoundTrip(Document(lines, None));
    assert MeantLines(lines) + [] == MeantLines(lines);
  }

  /** Reading concatenated texts gives, list by list, the concatenation of what each text gives. */
  lemma {:induction false} ConcatenatedTexts(lines: seq<Line>, d: Document)
    requires LinesFit(lines, "") && LinesFit(lines, DocumentText(d)) && HasItem(lines) && DocumentFits(d)
    ensures var first := ParsedString(LinesText(lines, ""));
      var second := ParsedString(DocumentText(d));
      ParsedString(LinesText(lines, "") + DocumentText(d))
      == if first.Read? && second.Read? then Read(Joined(first.value, second.value)) else Panic
  {
    LinesRead(lines);
    ManifestRoundTrip(d);
    ConcatenationReads(lines, d);
    CollectedConcat(MeantLines(lines), MeantDocument(d));
  }

  // ---- What a manifest holds, for every text ----

  /** The actions of one kind, in order. */
  function OfKind(actions: seq<Action>, kind: Kind): seq<Action> {
    if actions == [] then []
    else
      var before := OfKind(actions[..|actions| - 1], kind);
      if actions[|actions| - 1].kind == kind then before + [actions[|actions| - 1]] else before
  }

  /** The records are those of the actions of this kind, one for one and in order. */
  ghost predicate Records<T(!new)>(records: seq<T>, actions: seq<Action>, kind: Kind, record: Action -> Option<T>) {
    && |records| == |OfKind(actions, kind)|
    && forall i :: 0 <= i < |records| ==> record(OfKind(actions, kind)[i]) == Some(records[i])
  }

  function AttrRecord(a: Action): Option<Attr> { Some(AttrOf(WithPayload(a))) }

  function DirRecord(a: Action): Option<Dir> { Some(DirOf(WithPayload(a))) }

  function DependencyRecord(a: Action): Option<Dependency> { Some(DependencyOf(WithPayload(a))) }

  function LicenseRecord(a: Action): Option<License> { Some(LicenseOf(a.payload, a.properties)) }

  function LinkRecord(a: Action): Option<Link> { Some(LinkOf(WithPayload(a))) }

  /** Each list holds the records of its kind. */
  ghost predicate Sorts(c: Contents, actions: seq<Action>) {
    && Records(c.attributes, actions, AttrKind, AttrRecord)
    && Records(c.directories, actions, DirKind, DirRecord)
    && Records(c.files, actions, FileKind, FileOf)
    && Records(c.dependencies, actions, DependencyKind, DependencyRecord)
    && Records(c.licenses, actions, LicenseKind, LicenseRecord)
    && Records(c.links, actions, LinkKind, LinkRecord)
  }

  function Total(c: Contents): nat {
    |c.attributes| + |c.directories| + |c.files| + |c.dependencies| + |c.licenses| + |c.links|
  }

  lemma RecordsSnoc<T(!new)>(
      records: seq<T>, one: seq<T>, actions: seq<Action>, a: Action, kind: Kind, record: Action -> Option<T>)
    requires Records(records, actions, kind, record)
    requires if a.kind == kind then |one| == 1 && record(a) == Some(one[0]) else one == []
    ensures Records(records + one, actions + [a], kind, record)
  {
    assert (actions + [a])[..|actions|] == actions;
    assert a.kind == kind ==> OfKind(actions + [a], kind) == OfKind(actions, kind) + [a];
  }

  lemma SortsSnoc(c: Contents, actions: seq<Action>, a: Action)
    requires Sorts(c, actions) && Contribution(a).Some?
    ensures Sorts(Joined(c, Contribution(a).value), actions + [a])
    ensures Total(Joined(c, Contribution(a).value)) == Total(c) + 1
  {
    var one := Contribution(a).value;
    KindChoosesList(a);
    RecordsSnoc(c.attributes, one.attributes, actions, a, AttrKind, AttrRecord);
    RecordsSnoc(c.directories, one.directories, actions, a, DirKind, DirRecord);
    RecordsSnoc(c.files, one.files, actions, a, FileKind, FileOf);
    RecordsSnoc(c.dependencies, one.dependencies, actions, a, DependencyKind, DependencyRecord);
    RecordsSnoc(c.licenses, one.licenses, actions, a, LicenseKind, LicenseRecord);
    RecordsSnoc(c.links, one.links, actions, a, LinkKind, LinkRecord);
  }

  /** Adding actions one by one sorts them by kind, keeps their order and loses none. */
  lemma {:induction false} CollectedSorts(actions: seq<Action>)
    requires Collected(actions).Some?
    ensures Sorts(Collected(actions).value, actions) && Total(Collected(actions).value) == |actions|
  {
    if actions == [] {
    } else {
      var n := |actions| - 1;
      var init, last := actions[..n], actions[n];
      TakeOneMore(actions, n);
      assert actions[..n + 1] == actions;
      CollectedOneMore(init, last);
      CollectedSorts(init);
      SortsSnoc(Collected(init).value, init, last);
    }
  }

  lemma {:induction false} CollectedHas(actions: seq<Action>, i: nat)
    requires Collected(actions).Some? && i < |actions|
    ensures Contribution(actions[i]).Some?
  {
    var n := |actions| - 1;
    if i < n {
      CollectedHas(actions[..n], i);
    }
  }

  lemma {:induction false} CollectedLacks(actions: seq<Action>) returns (i: nat)
    requires Collected(actions).None?
    ensures i < |actions| && Contribution(actions[i]).None?
  {
    var n := |actions| - 1;
    if Collected(actions[..n]).None? {
      i := CollectedLacks(actions[..n]);
    } else {
      i := n;
    }
  }

  /** The keywords the grammar knows and the reader does not handle. */
  const UNHANDLED := {"driver", "group", "user", "legacy"}

  /** Whether the action of a pair is handled. */
  predicate Handled(p: ActionPair) {
    p.keyword !in UNHANDLED && (p.keyword == "file" ==> DigestsParse(ActionOf(p)))
  }

  lemma SupportedWords(word: string)
    requires word in KEYWORDS
    ensures KindOf(word) in {AttrKind, DirKind, FileKind, DependencyKind, LicenseKind, LinkKind} <==> word !in UNHANDLED
  {
    assert word == "set" || word == "depend" || word == "dir" || word == "file" || word == "license"
      || word == "hardlink" || word == "link" || word in UNHANDLED;
    KindOfWord(word);
  }

  lemma HandledContributes(p: ActionPair)
    requires p.keyword in KEYWORDS
    ensures Contribution(ActionOf(p)).Some? <==> Handled(p)
  {
    var a := ActionOf(p);
    KindOfWord(p.keyword);
    SupportedWords(p.keyword);
    KindChoosesList(a);
    FileExactlyWhen(a);
  }

  lemma {:induction false} ActionsMembers(pairs: seq<ActionPair>, i: nat)
    requires i < |pairs|
    ensures |ActionsOf(pairs)| == |pairs| && ActionsOf(pairs)[i] == ActionOf(pairs[i])
  {
    var n := |pairs| - 1;
    ActionsPrefix(pairs, n);
    ActionsPrefix(pairs[..n], n);
    if i < n {
      ActionsMembers(pairs[..n], i);
    }
  }

  /**
   For every text: reading fails with a syntax error exactly when the grammar rejects it, and
   panics exactly when an accepted action is one of the unhandled four or a file with a malformed
   digest. The panic for unknown keywords cannot be reached.
   */
  lemma {:induction false} ReadsExactlyWhen(text: string)
    ensures ParsedString(text).SyntaxError? <==> ParseManifest(text).None?
    ensures ParsedString(text).Read? <==>
      ParseManifest(text).Some? && forall p :: p in ParseManifest(text).value ==> Handled(p)
  {
    if ParseManifest(text).Some? {
      var pairs := ParseManifest(text).value;
      KeywordsAreKnown(text);
      ActionsPrefix(pairs, 0);
      forall i | 0 <= i < |pairs| ensures Contribution(ActionsOf(pairs)[i]).Some? <==> Handled(pairs[i]) {
        assert pairs[i] in pairs;
        ActionsMembers(pairs, i);
        HandledContributes(pairs[i]);
      }
      if Collected(ActionsOf(pairs)).Some? {
        forall i | 0 <= i < |pairs| ensures Handled(pairs[i]) {
          CollectedHas(ActionsOf(pairs), i);
        }
      } else {
        var i := CollectedLacks(ActionsOf(pairs));
        assert pairs[i] in pairs && !Handled(pairs[i]);
      }
    }
  }

  /** For every text that reads: one record for each action, in the list of its kind and in order. */
  lemma {:induction false} ReadingSorts(text: string)
    requires ParsedString(text).Read?
    ensures Sorts(ParsedString(text).value, ActionsOf(ParseManifest(text).value))
    ensures Total(ParsedString(text).value) == |ParseManifest(text).value|
  {
    CollectedSorts(ActionsOf(ParseManifest(text).value));
    ActionsPrefix(ParseManifest(text).value, 0);
  }

  // ---- Quoted payloads with equals signs ----

  lemma QuotedSplit(key: string, value: string)
    requires '=' !in key
    ensures '=' in Quoted(key + ['='] + value)
    ensures SplitProperty(Quoted(key + ['='] + value)).key == "\"" + key
    ensures SplitProperty(Quoted(key + ['='] + value)).value == Clean(value) <==> '=' !in value
  {
    var k, v := "\"" + key, value + "\"";
    assert Quoted(key + ['='] + value) == k + ['='] + v;
    assert (k + ['='] + v)[|k|] == '=';
    SplitKeepsValueExactlyWhen(k, v);
    SplitAt(k, v, '=');
    WithoutConcat(value, "\"", {'"', '\\'});
    assert Without("\"", {'"', '\\'}) == "" && Clean(value) + "" == Clean(value);
    assert '=' in v <==> '=' in value;
  }

  /** The last property has the quote in its key, and the whole value exactly when that holds no equals sign. */
  predicate EndsWithPayload(ps: seq<Property>, key: string, value: string) {
    && ps != [] && ps[|ps| - 1].key == "\"" + key
    && (ps[|ps| - 1].value == Clean(value) <==> '=' !in value)
  }

  /**
   A quoted payload `"key=value"` of a file becomes its last property. The quote stays in the key,
   and the value is kept whole exactly when it holds no further equals sign.
   */
  lemma {:induction false} QuotedPayloadExactlyWhen(a: LaidAction, key: string, value: string)
    requires ActionFits(a, "") && a.keyword == "file" && '=' !in key && '/' in key + ['='] + value
    requires a.payload.Some? && a.payload.value.quoted && a.payload.value.text == key + ['='] + value
    requires HashDigests(MeantProperties(a.properties)).Some?
    ensures exists f: File ::
      && EndsWithPayload(f.properties, key, value)
      && ParsedString(DocumentText(Document([], Some(a)))) == Read(EMPTY.(files := [f]))
  {
    QuotedFile(Meant(a), key, value);
    LoneFile(a);
  }

  lemma {:induction false} LoneFile(a: LaidAction)
    requires ActionFits(a, "") && a.keyword == "file" && FileOf(Meant(a)).Some?
    ensures ParsedString(DocumentText(Document([], Some(a)))) == Read(EMPTY.(files := [FileOf(Meant(a)).value]))
  {
    LoneAction(a);
    KindOfWord(a.keyword);
  }

  lemma QuotedFile(a: Action, key: string, value: string)
    requires a.payload == Quoted(key + ['='] + value) && '=' !in key && '/' in key + ['='] + value
    requires HashDigests(a.properties).Some?
    ensures FileOf(a).Some? && EndsWithPayload(FileOf(a).value.properties, key, value)
  {
    QuotedSplit(key, value);
    assert '/' in a.payload;
    SplitFile(a, SplitProperty(a.payload));
  }

  /** A text of one action. */
  lemma {:induction false} LoneAction(a: LaidAction)
    requires ActionFits(a, "")
    ensures ParsedString(DocumentText(Document([], Some(a))))
         == match Contribution(Meant(a)) case None => Panic case Some(c) => Read(c)
  {
    ManifestRoundTrip(Document([], Some(a)));
    assert MeantDocument(Document([], Some(a))) == [Meant(a)];
    CollectedOneMore([], Meant(a));
    assert [] + [Meant(a)] == [Meant(a)];
    if Contribution(Meant(a)).Some? {
      JoinedEmpty(Contribution(Meant(a)).value);
    }
  }

  lemma JoinedEmpty(c: Contents)
    ensures Joined(EMPTY, c) == c
  {
  }

  /** A file whose payload is split into a property outside the known names. */
  lemma SplitFile(a: Action, split: Property)
    requires '/' in a.payload && '=' in a.payload && split == SplitProperty(a.payload)
    requires split.key != "" && split.key[0] == '"' && HashDigests(a.properties).Some?
    ensures FileOf(a).Some? && OthersOf(a.properties, FILE_KEYS) + [split] == FileOf(a).value.properties
  {
    var props := a.properties + [split];
    assert split.key !in FILE_KEYS && !IsFacet(split.key);
    Snoc(a.properties, split, FILE_KEYS);
    HashSnoc(a.properties, split);
    assert [] + OthersOf(props, FILE_KEYS) == OthersOf(props, FILE_KEYS);
  }
}
