/**
 What single lines of a manifest come to, written as package manifests write them: a keyword, perhaps
 a payload, and bare properties set apart by single spaces. Each statement goes from the text to the
 record, through the grammar, the reader and the conversion.
 */
module PlainLines {
  import opened Prelude
  import opened Text
  import opened Digests
  import opened Properties
  import opened Actions
  import opened ManifestLayout
  import opened ManifestReading
  import opened Manifests

  function PropertiesPart(ps: seq<Property>): string {
    if ps == [] then "" else " " + ps[0].key + "=" + ps[0].value + PropertiesPart(ps[1..])
  }

  function PlainLine(keyword: string, payload: string, ps: seq<Property>): string {
    keyword + (if payload == "" then "" else " " + payload) + PropertiesPart(ps) + "\n"
  }

  /** Bare text: no blank, newline, quote or backslash, and no hash mark at its start. */
  predicate PlainValue(v: string) {
    v != "" && v[0] != '#' && forall c :: c in v ==> c !in {' ', '\t', '\n', '\r', '"', '\\'}
  }

  predicate PlainProperty(p: Property) {
    p.key != "" && (forall c :: c in p.key ==> c in NAME_CHARACTERS) && PlainValue(p.value)
  }

  predicate PlainPayload(payload: string) {
    payload == "" || (PlainValue(payload) && '=' !in payload && '#' !in payload)
  }

  // ---- The layout of such a line ----

  function LaidProperties(ps: seq<Property>): seq<LaidProperty> {
    if ps == [] then []
    else [LaidProperty(ps[0].key, ps[0].value, [Space], [], [], false)] + LaidProperties(ps[1..])
  }

  function Laid(keyword: string, payload: string, ps: seq<Property>): LaidAction {
    var laid := if payload == "" then None else Some(LaidPayload([Space], payload, false));
    LaidAction(keyword, laid, LaidProperties(ps), [])
  }

  lemma PlainValueIsBare(v: string)
    requires PlainValue(v)
    ensures BareText(v) && CleanText(v)
  {
    forall c | c in v ensures c !in " \t\n\r\"\\" {
      assert c != ' ' && c != '\t' && c != '\n' && c != '\r' && c != '"' && c != '\\';
    }
  }

  lemma LaidPropertyGood(p: Property)
    requires PlainProperty(p)
    ensures GoodProperty(LaidProperty(p.key, p.value, [Space], [], [], false)) && Clean(p.value) == p.value
  {
    PlainValueIsBare(p.value);
    CleanIsMeant(p.value);
    forall c | c in p.key ensures ManifestGrammar.NameChar(c) { NameCharacters(c); }
  }

  lemma {:induction false} LaidPropertiesMean(ps: seq<Property>)
    requires forall p :: p in ps ==> PlainProperty(p)
    ensures GoodProperties(LaidProperties(ps)) && MeantProperties(LaidProperties(ps)) == ps
  {
    if ps == [] {
    } else {
      assert ps[0] in ps;
      LaidPropertyGood(ps[0]);
      LaidPropertiesMean(ps[1..]);
      assert LaidProperties(ps)[1..] == LaidProperties(ps[1..]);
      assert ps == [ps[0]] + ps[1..];
    }
  }

  lemma OnePropertyPart(p: Property, rest: string)
    ensures var laid := LaidProperty(p.key, p.value, [Space], [], [], false);
      GapText(laid.before, PropertyText(laid, rest)) == (" " + p.key + "=" + p.value) + rest
  {
    var laid := LaidProperty(p.key, p.value, [Space], [], [], false);
    assert [Space][1..] == [];
    assert PropertyText(laid, rest) == p.key + ("=" + (p.value + rest));
    Assoc(" " + p.key + "=", p.value, rest);
    Assoc(" " + p.key, "=", p.value + rest);
    Assoc(" ", p.key, "=" + (p.value + rest));
  }

  lemma {:induction false} PropertiesPartText(ps: seq<Property>, rest: string)
    ensures PropertiesText(LaidProperties(ps), rest) == PropertiesPart(ps) + rest
  {
    if ps == [] {
      assert "" + rest == rest;
    } else {
      var part := " " + ps[0].key + "=" + ps[0].value;
      assert LaidProperties(ps)[1..] == LaidProperties(ps[1..]);
      PropertiesPartText(ps[1..], rest);
      OnePropertyPart(ps[0], PropertiesPart(ps[1..]) + rest);
      Assoc(part, PropertiesPart(ps[1..]), rest);
    }
  }

  lemma {:induction false} LineIsLaid(keyword: string, payload: string, ps: seq<Property>)
    ensures ActionText(Laid(keyword, payload, ps), "\n") == PlainLine(keyword, payload, ps)
  {
    var tail := PropertiesPart(ps) + "\n";
    PropertiesPartText(ps, "\n");
    assert [Space][1..] == [];
    if payload == "" {
      assert keyword + "" == keyword;
      Assoc(keyword, PropertiesPart(ps), "\n");
    } else {
      var laid := LaidPayload([Space], payload, false);
      assert WrittenPayload(laid) == payload && GapText([], payload + tail) == payload + tail;
      assert PayloadText(Some(laid), tail) == FillerText(Space, payload + tail);
      Assoc(" ", payload, tail);
      Assoc(keyword, " " + payload, tail);
      Assoc(keyword + (" " + payload), PropertiesPart(ps), "\n");
    }
  }

  lemma {:induction false} LaidIsGood(keyword: string, payload: string, ps: seq<Property>)
    requires keyword in KEYWORDS && (payload != "" || ps != [])
    requires PlainPayload(payload) && forall p :: p in ps ==> PlainProperty(p)
    ensures GoodAction(Laid(keyword, payload, ps))
    ensures Meant(Laid(keyword, payload, ps)) == Action(KindOf(keyword), payload, ps)
  {
    LaidPropertiesMean(ps);
    if payload != "" {
      PlainValueIsBare(payload);
      var n := ManifestGrammar.NameLength(payload);
      assert n < |payload| ==> payload[n] in payload;
    }
  }

  /** The records a line comes to: those of its keyword, payload and properties as they are written. */
  lemma {:induction false} PlainLineReads(keyword: string, payload: string, ps: seq<Property>)
    requires keyword in KEYWORDS && (payload != "" || ps != [])
    requires PlainPayload(payload) && forall p :: p in ps ==> PlainProperty(p)
    ensures ParsedString(PlainLine(keyword, payload, ps))
         == match Contribution(Action(KindOf(keyword), payload, ps)) case None => Panic case Some(c) => Read(c)
  {
    var laid := Laid(keyword, payload, ps);
    var d := Document([Entry(laid, LF)], None);
    LaidIsGood(keyword, payload, ps);
    GoodDocumentFits(d);
    ManifestRoundTrip(d);
    LineIsLaid(keyword, payload, ps);
    AloneOnLine(laid);
    CollectedOneMore([], Meant(laid));
    assert [] + [Meant(laid)] == [Meant(laid)];
    if Contribution(Meant(laid)).Some? {
      JoinedEmpty(Contribution(Meant(laid)).value);
    }
  }

  lemma {:induction false} AloneOnLine(laid: LaidAction)
    ensures var d := Document([Entry(laid, LF)], None);
      DocumentText(d) == ActionText(laid, "\n") && MeantDocument(d) == [Meant(laid)]
  {
    var lines := [Entry(laid, LF)];
    assert lines[1..] == [];
    assert Newline(LF) == "\n" && Newline(LF) + "" == "\n";
    assert LinesText(lines, "") == LineText(lines[0], "");
    assert MeantLines(lines) == [Meant(laid)] + [];
    assert [Meant(laid)] + [] == [Meant(laid)];
  }

  // ---- Lines of each kind, with whatever properties ----

  /** Something follows the keyword: a payload, or properties. */
  predicate PlainParts(payload: string, ps: seq<Property>) {
    (payload != "" || ps != []) && PlainPayload(payload) && forall p :: p in ps ==> PlainProperty(p)
  }

  /** The properties a record is made of: a payload without an equals sign is the last of them, with no value. */
  function Parts(payload: string, ps: seq<Property>): seq<Property> {
    ps + if payload == "" then [] else [Property(payload, "")]
  }

  predicate PlainProperties(ps: seq<Property>) {
    ps != [] && forall p :: p in ps ==> PlainProperty(p)
  }

  lemma NoPayload(ps: seq<Property>)
    requires PlainProperties(ps)
    ensures PlainParts("", ps) && Parts("", ps) == ps
  {
    assert ps + [] == ps;
  }

  lemma PartsAreRead(kind: Kind, payload: string, ps: seq<Property>)
    requires PlainPayload(payload)
    ensures WithPayload(Action(kind, payload, ps)) == Parts(payload, ps)
  {
    if payload != "" {
      SplitPropertyReads(payload, "", "");
    }
  }

  lemma LinkContribution(payload: string, ps: seq<Property>)
    requires PlainPayload(payload)
    ensures Contribution(Action(LinkKind, payload, ps)) == Some(EMPTY.(links := [LinkOf(Parts(payload, ps))]))
  {
    PartsAreRead(LinkKind, payload, ps);
  }

  lemma {:induction false} LinkLineReads(keyword: string, payload: string, ps: seq<Property>)
    requires (keyword == "link" || keyword == "hardlink") && PlainParts(payload, ps)
    ensures ParsedString(PlainLine(keyword, payload, ps)) == Read(EMPTY.(links := [LinkOf(Parts(payload, ps))]))
  {
    KeywordsAre(keyword);
    KindOfWord(keyword);
    LinkContribution(payload, ps);
    PlainLineReads(keyword, payload, ps);
  }

  lemma AttrContribution(payload: string, ps: seq<Property>)
    requires PlainPayload(payload)
    ensures Contribution(Action(AttrKind, payload, ps)) == Some(EMPTY.(attributes := [AttrOf(Parts(payload, ps))]))
  {
    PartsAreRead(AttrKind, payload, ps);
  }

  lemma {:induction false} AttrLineReads(payload: string, ps: seq<Property>)
    requires PlainParts(payload, ps)
    ensures ParsedString(PlainLine("set", payload, ps)) == Read(EMPTY.(attributes := [AttrOf(Parts(payload, ps))]))
  {
    var keyword := "set";
    KeywordsAre(keyword);
    KindOfWord(keyword);
    AttrContribution(payload, ps);
    PlainLineReads(keyword, payload, ps);
  }

  lemma DependencyContribution(payload: string, ps: seq<Property>)
    requires PlainPayload(payload)
    ensures Contribution(Action(DependencyKind, payload, ps))
         == Some(EMPTY.(dependencies := [DependencyOf(Parts(payload, ps))]))
  {
    PartsAreRead(DependencyKind, payload, ps);
  }

  lemma {:induction false} DependencyLineReads(payload: string, ps: seq<Property>)
    requires PlainParts(payload, ps)
    ensures ParsedString(PlainLine("depend", payload, ps))
         == Read(EMPTY.(dependencies := [DependencyOf(Parts(payload, ps))]))
  {
    var keyword := "depend";
    KeywordsAre(keyword);
    KindOfWord(keyword);
    DependencyContribution(payload, ps);
    PlainLineReads(keyword, payload, ps);
  }

  lemma DirContribution(payload: string, ps: seq<Property>)
    requires PlainPayload(payload)
    ensures Contribution(Action(DirKind, payload, ps)) == Some(EMPTY.(directories := [DirOf(Parts(payload, ps))]))
  {
    PartsAreRead(DirKind, payload, ps);
  }

  lemma {:induction false} DirLineReads(payload: string, ps: seq<Property>)
    requires PlainParts(payload, ps)
    ensures ParsedString(PlainLine("dir", payload, ps)) == Read(EMPTY.(directories := [DirOf(Parts(payload, ps))]))
  {
    var keyword := "dir";
    KeywordsAre(keyword);
    KindOfWord(keyword);
    DirContribution(payload, ps);
    PlainLineReads(keyword, payload, ps);
  }

  lemma LicenseContribution(payload: string, ps: seq<Property>)
    ensures Contribution(Action(LicenseKind, payload, ps)) == Some(EMPTY.(licenses := [LicenseOf(payload, ps)]))
  {
  }

  lemma {:induction false} LicenseLineReads(payload: string, ps: seq<Property>)
    requires PlainParts(payload, ps)
    ensures ParsedString(PlainLine("license", payload, ps)) == Read(EMPTY.(licenses := [LicenseOf(payload, ps)]))
  {
    var keyword := "license";
    KeywordsAre(keyword);
    KindOfWord(keyword);
    LicenseContribution(payload, ps);
    PlainLineReads(keyword, payload, ps);
  }

  lemma {:induction false} FileLineReads(payload: string, ps: seq<Property>)
    requires PlainParts(payload, ps)
    ensures ParsedString(PlainLine("file", payload, ps))
         == match FileOf(Action(FileKind, payload, ps)) case None => Panic case Some(f) => Read(EMPTY.(files := [f]))
  {
    var keyword := "file";
    KeywordsAre(keyword);
    KindOfWord(keyword);
    PlainLineReads(keyword, payload, ps);
  }

  // ---- Lines of each kind, as packages hold them ----

  lemma LettersArePlain(c: char)
    requires 'a' <= c <= 'z' || c == '.' || c == '-'
    ensures c in NAME_CHARACTERS
  {
    NameCharacters(c);
  }

  lemma KeyIsPlain(key: string, value: string)
    requires key != "" && PlainValue(value)
    requires forall i :: 0 <= i < |key| ==> 'a' <= key[i] <= 'z' || key[i] == '.' || key[i] == '-'
    ensures PlainProperty(Property(key, value))
  {
    forall c | c in key ensures c in NAME_CHARACTERS { LettersArePlain(c); }
  }

  lemma Appends(p: Property, q: Property, r: Property, t: Property)
    ensures [] + [p] == [p] && [p] + [q] == [p, q] && [p, q] + [r] == [p, q, r] && [p, q, r] + [t] == [p, q, r, t]
  {
  }

  lemma {:induction false} LinkPropertiesRead(keyword: string, ps: seq<Property>)
    requires (keyword == "link" || keyword == "hardlink") && PlainProperties(ps)
    ensures ParsedString(PlainLine(keyword, "", ps)) == Read(EMPTY.(links := [LinkOf(ps)]))
  {
    NoPayload(ps);
    LinkLineReads(keyword, "", ps);
  }

  lemma LinkOfLine(p: Property, q: Property)
    requires p.key == "path" && q.key == "target"
    ensures LinkOf([p, q]) == Link(p.value, q.value, map[])
  {
    Appends(p, q, p, q);
    LastSnoc([], p, "path");
    LastSnoc([], p, "target");
    LastSnoc([p], q, "path");
    LastSnoc([p], q, "target");
    Snoc([], p, {"path", "target"});
    Snoc([p], q, {"path", "target"});
  }

  /** `link path=P target=T`, and the same with `hardlink`. */
  lemma {:induction false} LinkLine(keyword: string, path: string, target: string)
    requires (keyword == "link" || keyword == "hardlink") && PlainValue(path) && PlainValue(target)
    ensures ParsedString(PlainLine(keyword, "", [Property("path", path), Property("target", target)]))
         == Read(EMPTY.(links := [Link(path, target, map[])]))
  {
    var p, q := Property("path", path), Property("target", target);
    KeyIsPlain("path", path);
    KeyIsPlain("target", target);
    LinkPropertiesRead(keyword, [p, q]);
    LinkOfLine(p, q);
  }

  lemma {:induction false} AttrPropertiesRead(ps: seq<Property>)
    requires PlainProperties(ps)
    ensures ParsedString(PlainLine("set", "", ps)) == Read(EMPTY.(attributes := [AttrOf(ps)]))
  {
    NoPayload(ps);
    AttrLineReads("", ps);
  }

  lemma AttrOfLine(p: Property, q: Property, r: Property, t: Property)
    requires p.key == "name" && q.key == "value" && r.key == "value" && t.key == "optional"
    ensures AttrOf([p, q, r, t]) == Attr(p.value, [q.value, r.value], map["optional" := t])
  {
    Appends(p, q, r, t);
    AttrSnoc([], p);
    AttrSnoc([p], q);
    AttrSnoc([p, q], r);
    AttrSnoc([p, q, r], t);
  }

  /** `set name=N value=V value=W optional=O`. */
  lemma {:induction false} AttrLine(name: string, first: string, second: string, optional: string)
    requires PlainValue(name) && PlainValue(first) && PlainValue(second) && PlainValue(optional)
    ensures ParsedString(PlainLine("set", "", [
        Property("name", name), Property("value", first), Property("value", second), Property("optional", optional)]))
      == Read(EMPTY.(attributes := [Attr(name, [first, second], map["optional" := Property("optional", optional)])]))
  {
    var p, q := Property("name", name), Property("value", first);
    var r, t := Property("value", second), Property("optional", optional);
    KeyIsPlain("name", name);
    KeyIsPlain("value", first);
    KeyIsPlain("value", second);
    KeyIsPlain("optional", optional);
    AttrPropertiesRead([p, q, r, t]);
    AttrOfLine(p, q, r, t);
  }

  lemma {:induction false} DependencyPropertiesRead(ps: seq<Property>)
    requires PlainProperties(ps)
    ensures ParsedString(PlainLine("depend", "", ps)) == Read(EMPTY.(dependencies := [DependencyOf(ps)]))
  {
    NoPayload(ps);
    DependencyLineReads("", ps);
  }

  lemma DependencyOfLine(p: Property, q: Property, r: Property)
    requires p.key == "fmri" && q.key == "type" && r.key == "facet.version-lock"
    ensures DependencyOf([p, q, r])
         == Dependency(p.value, q.value, "", "", [], map["version-lock" := Facet("version-lock", r.value)])
  {
    Appends(p, q, r, p);
    FacetName(r.key, "version-lock");
    DependencySnoc([], p);
    DependencySnoc([p], q);
    DependencySnoc([p, q], r);
  }

  lemma FacetName(key: string, name: string)
    requires key == "facet." + name
    ensures IsFacet(key) && FacetKey(key) == name
  {
    FacetKeyStrips(key);
    assert key[6..] == name && ("facet." + FacetKey(key))[6..] == FacetKey(key);
  }

  /** `depend fmri=F type=T facet.version-lock=L`. */
  lemma {:induction false} DependencyLine(fmri: string, kind: string, lock: string)
    requires PlainValue(fmri) && PlainValue(kind) && PlainValue(lock)
    ensures ParsedString(PlainLine("depend", "", [
        Property("fmri", fmri), Property("type", kind), Property("facet.version-lock", lock)]))
      == Read(EMPTY.(dependencies := [
        Dependency(fmri, kind, "", "", [], map["version-lock" := Facet("version-lock", lock)])]))
  {
    var p, q, r := Property("fmri", fmri), Property("type", kind), Property("facet.version-lock", lock);
    KeyIsPlain("fmri", fmri);
    KeyIsPlain("type", kind);
    KeyIsPlain("facet.version-lock", lock);
    DependencyPropertiesRead([p, q, r]);
    DependencyOfLine(p, q, r);
  }

  lemma {:induction false} DirPropertiesRead(ps: seq<Property>)
    requires PlainProperties(ps)
    ensures ParsedString(PlainLine("dir", "", ps)) == Read(EMPTY.(directories := [DirOf(ps)]))
  {
    NoPayload(ps);
    DirLineReads("", ps);
  }

  lemma DirOfLine(p: Property, q: Property, r: Property, t: Property)
    requires p.key == "group" && q.key == "mode" && r.key == "owner" && t.key == "path"
    ensures DirOf([p, q, r, t]) == Dir(t.value, p.value, r.value, q.value, "", "", map[])
  {
    Appends(p, q, r, t);
    DirSnoc([], p);
    DirSnoc([p], q);
    DirSnoc([p, q], r);
    DirSnoc([p, q, r], t);
  }

  /** `dir group=G mode=M owner=O path=P`. */
  lemma {:induction false} DirLine(group: string, mode: string, owner: string, path: string)
    requires PlainValue(group) && PlainValue(mode) && PlainValue(owner) && PlainValue(path)
    ensures ParsedString(PlainLine("dir", "", [
        Property("group", group), Property("mode", mode), Property("owner", owner), Property("path", path)]))
      == Read(EMPTY.(directories := [Dir(path, group, owner, mode, "", "", map[])]))
  {
    var p, q := Property("group", group), Property("mode", mode);
    var r, t := Property("owner", owner), Property("path", path);
    KeyIsPlain("group", group);
    KeyIsPlain("mode", mode);
    KeyIsPlain("owner", owner);
    KeyIsPlain("path", path);
    DirPropertiesRead([p, q, r, t]);
    DirOfLine(p, q, r, t);
  }

  /** `license PAYLOAD license=L`. */
  lemma {:induction false} LicenseLine(payload: string, license: string)
    requires PlainPayload(payload) && PlainValue(license)
    ensures ParsedString(PlainLine("license", payload, [Property("license", license)]))
         == Read(EMPTY.(licenses := [License(payload, map["license" := Property("license", license)])]))
  {
    var p := Property("license", license);
    KeyIsPlain("license", license);
    LicenseLineReads(payload, [p]);
    Appends(p, p, p, p);
    Snoc([], p, {});
  }

  lemma FileFieldsOfLine(p: Property, q: Property, r: Property, t: Property)
    requires p.key == "chash" && q.key == "path" && r.key == "pkg.content-hash" && t.key == "pkg.csize"
    ensures FileFields([], [p, q, r, t]) == File(None, q.value, "", "", "", false, false, "", "", "", [t], map[])
  {
    Appends(p, q, r, t);
    HashKeepsFields([], [], p);
    FileSnoc([], [p], q);
    HashKeepsFields([], [p, q], r);
    FileSnoc([], [p, q, r], t);
  }

  lemma FileDigestsOfLine(p: Property, q: Property, r: Property, t: Property, content: string)
    requires p.key == "chash" && q.key == "path" && r.key == "pkg.content-hash" && t.key == "pkg.csize"
    requires ':' !in p.value && ':' !in content && r.value == "file" + ":" + "sha512t_256" + ":" + content
    ensures HashDigests([p, q, r, t]) == Some([
      Digest(p.value, SHA1, PrimaryPayloadHash), Digest(content, SHA512Half, UncompressedFile)])
  {
    var first, second := Digest(p.value, SHA1, PrimaryPayloadHash), Digest(content, SHA512Half, UncompressedFile);
    Appends(p, q, r, t);
    WrittenNames("file", UncompressedFile, "sha512t_256", SHA512Half, content);
    assert [] + [first] == [first] && [first] + [second] == [first, second];
    DigestKept([], p, [], first);
    assert HashDigests([p]) == Some([first]);
    OtherSkipped([p], q);
    assert HashDigests([p, q]) == Some([first]);
    DigestKept([p, q], r, [first], second);
    OtherSkipped([p, q, r], t);
  }

  lemma DigestKept(props: seq<Property>, p: Property, ds: seq<Digest>, d: Digest)
    requires HashDigests(props) == Some(ds) && (p.key == "chash" || p.key == "pkg.content-hash")
    requires FromStr(p.value) == Ok(d)
    ensures HashDigests(props + [p]) == Some(ds + [d])
  {
    HashSnoc(props, p);
  }

  lemma OtherSkipped(props: seq<Property>, p: Property)
    requires HashDigests(props).Some? && p.key != "chash" && p.key != "pkg.content-hash"
    ensures HashDigests(props + [p]) == HashDigests(props)
  {
    HashSnoc(props, p);
  }

  /** The file line of a published package: its hash, further digests, a field, and a property kept as it is. */
  lemma {:induction false} FileLine(hash: string, chash: string, path: string, content: string, size: string)
    requires hash != "" && PlainPayload(hash) && '/' !in hash && ':' !in hash && ':' !in chash && ':' !in content
    requires PlainValue(chash) && PlainValue(path) && PlainValue("file" + ":" + "sha512t_256" + ":" + content)
    requires PlainValue(size)
    ensures ParsedString(PlainLine("file", hash, [
        Property("chash", chash), Property("path", path),
        Property("pkg.content-hash", "file" + ":" + "sha512t_256" + ":" + content), Property("pkg.csize", size)]))
      == Read(EMPTY.(files := [
        File(Some(Payload(Digest(hash, SHA1, PrimaryPayloadHash),
                          [Digest(chash, SHA1, PrimaryPayloadHash), Digest(content, SHA512Half, UncompressedFile)])),
             path, "", "", "", false, false, "", "", "", [Property("pkg.csize", size)], map[])]))
  {
    var named := "file" + ":" + "sha512t_256" + ":" + content;
    var p, q := Property("chash", chash), Property("path", path);
    var r, t := Property("pkg.content-hash", named), Property("pkg.csize", size);
    FilePropertiesPlain(p, q, r, t);
    FileLineReads(hash, [p, q, r, t]);
    FileOfLine(hash, p, q, r, t, content);
  }

  lemma FilePropertiesPlain(p: Property, q: Property, r: Property, t: Property)
    requires p.key == "chash" && q.key == "path" && r.key == "pkg.content-hash" && t.key == "pkg.csize"
    requires PlainValue(p.value) && PlainValue(q.value) && PlainValue(r.value) && PlainValue(t.value)
    ensures PlainParts("", [p, q, r, t])
  {
    KeyIsPlain(p.key, p.value);
    KeyIsPlain(q.key, q.value);
    KeyIsPlain(r.key, r.value);
    KeyIsPlain(t.key, t.value);
  }

  lemma FileOfLine(hash: string, p: Property, q: Property, r: Property, t: Property, content: string)
    requires p.key == "chash" && q.key == "path" && r.key == "pkg.content-hash" && t.key == "pkg.csize"
    requires hash != "" && '/' !in hash && ':' !in hash
    requires ':' !in p.value && ':' !in content && r.value == "file" + ":" + "sha512t_256" + ":" + content
    ensures FileOf(Action(FileKind, hash, [p, q, r, t])) == Some(
      File(Some(Payload(Digest(hash, SHA1, PrimaryPayloadHash),
                        [Digest(p.value, SHA1, PrimaryPayloadHash), Digest(content, SHA512Half, UncompressedFile)])),
           q.value, "", "", "", false, false, "", "", "", [t], map[]))
  {
    FileFieldsOfLine(p, q, r, t);
    FileDigestsOfLine(p, q, r, t, content);
  }
}
