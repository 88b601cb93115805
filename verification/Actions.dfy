/**
 The typed records built from actions. Each record is specified field by field from the list of
 properties; each conversion is the loop of the source, which updates a record property by property.
 */
module Actions {
  import opened Prelude
  import opened Text
  import opened Digests
  import opened Properties

  datatype Kind =
    | AttrKind | DirKind | FileKind | DependencyKind | UserKind | GroupKind | DriverKind
    | LicenseKind | LinkKind | LegacyKind | UnknownKind(word: string) | TransformKind

  datatype Action = Action(kind: Kind, payload: string, properties: seq<Property>)

  function KindOf(word: string): Kind {
    if word == "set" then AttrKind
    else if word == "depend" then DependencyKind
    else if word == "dir" then DirKind
    else if word == "file" then FileKind
    else if word == "license" then LicenseKind
    else if word == "hardlink" then LinkKind
    else if word == "link" then LinkKind
    else if word == "driver" then DriverKind
    else if word == "group" then GroupKind
    else if word == "user" then UserKind
    else if word == "legacy" then LegacyKind
    else if word == "<transform" then TransformKind
    else UnknownKind(word)
  }

  // ---- Records ----

  datatype Payload = Payload(primary: Digest, additional: seq<Digest>)

  datatype Dir = Dir(
    path: string, group: string, owner: string, mode: string, revertTag: string, salvageFrom: string,
    facets: map<string, Facet>)

  datatype File = File(
    payload: Option<Payload>, path: string, group: string, owner: string, mode: string,
    preserve: bool, overlay: bool, originalName: string, revertTag: string, sysAttr: string,
    properties: seq<Property>, facets: map<string, Facet>)

  datatype Dependency = Dependency(
    fmri: string, dependencyType: string, predicateFmri: string, rootImage: string,
    optional: seq<Property>, facets: map<string, Facet>)

  datatype Attr = Attr(key: string, values: seq<string>, properties: map<string, Property>)

  datatype License = License(payload: string, properties: map<string, Property>)

  datatype Link = Link(path: string, target: string, properties: map<string, Property>)

  // ---- Specifications ----

  /** The properties a conversion loops over: those of the action, then the payload split as a property. */
  function WithPayload(a: Action): seq<Property> {
    if a.payload == "" then a.properties else a.properties + [SplitProperty(a.payload)]
  }

  function DirOf(props: seq<Property>): Dir {
    Dir(LastValue(props, "path"), LastValue(props, "group"), LastValue(props, "owner"), LastValue(props, "mode"),
        LastValue(props, "revert-tag"), LastValue(props, "salvage-from"), FacetsOf(props))
  }

  const DEPENDENCY_KEYS := {"fmri", "type", "predicate", "root-image"}

  function DependencyOf(props: seq<Property>): Dependency {
    Dependency(LastValue(props, "fmri"), LastValue(props, "type"), LastValue(props, "predicate"),
               LastValue(props, "root-image"), OthersOf(props, DEPENDENCY_KEYS), FacetsOf(props))
  }

  function AttrOf(props: seq<Property>): Attr {
    Attr(LastValue(props, "name"), AllValues(props, "value"), ByKey(props, {"name", "value"}))
  }

  function LinkOf(props: seq<Property>): Link {
    Link(LastValue(props, "path"), LastValue(props, "target"), ByKey(props, {"path", "target"}))
  }

  function LicenseOf(payload: string, props: seq<Property>): License {
    License(payload, ByKey(props, {}))
  }

  const FILE_KEYS := HASH_KEYS + {
    "path", "owner", "group", "mode", "revert-tag", "original_name", "sysattr", "overlay", "preserve"}

  const NO_DIGEST := Digest("", SHA1, PrimaryPayloadHash)

  /** A payload with a slash and no equals sign names the original file. */
  predicate NamesOriginal(payload: string) {
    '/' in payload && '=' !in payload
  }

  function OriginalPath(payload: string): seq<Property> {
    if NamesOriginal(payload) then [Property("original-path", Clean(payload))] else []
  }

  /** The properties of a file action; a payload with both a slash and an equals sign is one of them. */
  function FileProperties(a: Action): seq<Property> {
    if '/' in a.payload && '=' in a.payload then a.properties + [SplitProperty(a.payload)] else a.properties
  }

  /** The digest a payload without a slash stands for. */
  function PrimaryDigest(payload: string): Result<Digest, DigestError> {
    if payload == "" || '/' in payload then Ok(NO_DIGEST) else FromStr(payload)
  }

  /** The fields that do not depend on digests. */
  function FileFields(original: seq<Property>, props: seq<Property>): File {
    File(None, LastValue(props, "path"), LastValue(props, "group"), LastValue(props, "owner"), LastValue(props, "mode"),
         BoolOf(LastValue(props, "preserve")), BoolOf(LastValue(props, "overlay")), LastValue(props, "original_name"),
         LastValue(props, "revert-tag"), LastValue(props, "sysattr"),
         original + OthersOf(props, FILE_KEYS), FacetsOf(props))
  }

  /** The file of an action; none when a digest is malformed, where the code panics. */
  function FileOf(a: Action): Option<File> {
    var props := FileProperties(a);
    match (PrimaryDigest(a.payload), HashDigests(props))
    case (Ok(primary), Some(hashes)) =>
      var payload := if primary.hash == "" then None else Some(Payload(primary, hashes));
      Some(FileFields(OriginalPath(a.payload), props).(payload := payload))
    case _ => None
  }

  // ---- One more property ----

  /** The value of a field after one more property. */
  function Latest(p: Property, key: string, before: string): string {
    if p.key == key then p.value else before
  }

  function WithFacet(facets: map<string, Facet>, p: Property): map<string, Facet> {
    if IsFacet(p.key) then facets[FacetKey(p.key) := Facet(FacetKey(p.key), p.value)] else facets
  }

  function WithOther(others: seq<Property>, p: Property, known: set<string>): seq<Property> {
    if p.key in known || IsFacet(p.key) then others else others + [p]
  }

  function WithKey(m: map<string, Property>, p: Property, known: set<string>): map<string, Property> {
    if p.key in known then m else m[p.key := p]
  }

  lemma LastSnoc(props: seq<Property>, p: Property, k: string)
    ensures LastValue(props + [p], k) == Latest(p, k, LastValue(props, k))
  {
  }

  lemma Snoc(props: seq<Property>, p: Property, known: set<string>)
    ensures FacetsOf(props + [p]) == WithFacet(FacetsOf(props), p)
    ensures OthersOf(props + [p], known) == WithOther(OthersOf(props, known), p, known)
    ensures ByKey(props + [p], known) == WithKey(ByKey(props, known), p, known)
  {
  }

  lemma HashSnoc(props: seq<Property>, p: Property)
    requires HashDigests(props).Some?
    ensures HashDigests(props + [p]) ==
      if p.key !in HASH_KEYS then HashDigests(props)
      else match FromStr(p.value) case Ok(d) => Some(HashDigests(props).value + [d]) case Err(_) => None
  {
  }

  lemma DirSnoc(props: seq<Property>, p: Property)
    ensures var d := DirOf(props);
      DirOf(props + [p]) == Dir(
        Latest(p, "path", d.path), Latest(p, "group", d.group), Latest(p, "owner", d.owner), Latest(p, "mode", d.mode),
        Latest(p, "revert-tag", d.revertTag), Latest(p, "salvage-from", d.salvageFrom), WithFacet(d.facets, p))
  {
  }

  lemma DependencySnoc(props: seq<Property>, p: Property)
    ensures var d := DependencyOf(props);
      DependencyOf(props + [p]) == Dependency(
        Latest(p, "fmri", d.fmri), Latest(p, "type", d.dependencyType), Latest(p, "predicate", d.predicateFmri),
        Latest(p, "root-image", d.rootImage), WithOther(d.optional, p, DEPENDENCY_KEYS), WithFacet(d.facets, p))
  {
  }

  lemma AttrSnoc(props: seq<Property>, p: Property)
    ensures var t := AttrOf(props);
      AttrOf(props + [p]) == Attr(
        Latest(p, "name", t.key), if p.key == "value" then t.values + [p.value] else t.values,
        WithKey(t.properties, p, {"name", "value"}))
  {
  }

  /** The fields of a file after one more property. */
  function FileAfter(f: File, p: Property): File {
    File(
      f.payload, Latest(p, "path", f.path), Latest(p, "group", f.group), Latest(p, "owner", f.owner),
      Latest(p, "mode", f.mode), if p.key == "preserve" then BoolOf(p.value) else f.preserve,
      if p.key == "overlay" then BoolOf(p.value) else f.overlay, Latest(p, "original_name", f.originalName),
      Latest(p, "revert-tag", f.revertTag), Latest(p, "sysattr", f.sysAttr),
      WithOther(f.properties, p, FILE_KEYS), WithFacet(f.facets, p))
  }

  lemma FileSnoc(original: seq<Property>, props: seq<Property>, p: Property)
    ensures FileFields(original, props + [p]) == FileAfter(FileFields(original, props), p)
  {
    LastSnoc(props, p, "path");
    LastSnoc(props, p, "group");
    LastSnoc(props, p, "owner");
    LastSnoc(props, p, "mode");
    LastSnoc(props, p, "preserve");
    LastSnoc(props, p, "overlay");
    LastSnoc(props, p, "original_name");
    LastSnoc(props, p, "revert-tag");
    LastSnoc(props, p, "sysattr");
    Snoc(props, p, FILE_KEYS);
  }

  // ---- The loops ----

  method ConvertDir(a: Action) returns (dir: Dir)
    ensures dir == DirOf(WithPayload(a))
  {
    dir := Dir("", "", "", "", "", "", map[]);
    var props := a.properties;
    if a.payload != "" {
      props := props + [SplitProperty(a.payload)];
    }
    for i := 0 to |props|
      invariant dir == DirOf(props[..i])
    {
      var p := props[i];
      DirSnoc(props[..i], p);
      TakeOneMore(props, i);
      if p.key == "path" { dir := dir.(path := p.value); }
      else if p.key == "owner" { dir := dir.(owner := p.value); }
      else if p.key == "group" { dir := dir.(group := p.value); }
      else if p.key == "mode" { dir := dir.(mode := p.value); }
      else if p.key == "revert-tag" { dir := dir.(revertTag := p.value); }
      else if p.key == "salvage-from" { dir := dir.(salvageFrom := p.value); }
      else if IsFacet(p.key) {
        dir := dir.(facets := dir.facets[FacetKey(p.key) := Facet(FacetKey(p.key), p.value)]);
      }
    }
    assert props[..|props|] == props;
  }

  method ConvertDependency(a: Action) returns (dep: Dependency)
    ensures dep == DependencyOf(WithPayload(a))
  {
    dep := Dependency("", "", "", "", [], map[]);
    var props := a.properties;
    if a.payload != "" {
      props := props + [SplitProperty(a.payload)];
    }
    for i := 0 to |props|
      invariant dep == DependencyOf(props[..i])
    {
      var p := props[i];
      DependencySnoc(props[..i], p);
      TakeOneMore(props, i);
      if p.key == "fmri" { dep := dep.(fmri := p.value); }
      else if p.key == "type" { dep := dep.(dependencyType := p.value); }
      else if p.key == "predicate" { dep := dep.(predicateFmri := p.value); }
      else if p.key == "root-image" { dep := dep.(rootImage := p.value); }
      else if IsFacet(p.key) {
        dep := dep.(facets := dep.facets[FacetKey(p.key) := Facet(FacetKey(p.key), p.value)]);
      } else {
        dep := dep.(optional := dep.optional + [p]);
      }
    }
    assert props[..|props|] == props;
  }

  method ConvertAttr(a: Action) returns (attr: Attr)
    ensures attr == AttrOf(WithPayload(a))
  {
    attr := Attr("", [], map[]);
    var props := a.properties;
    if a.payload != "" {
      props := props + [SplitProperty(a.payload)];
    }
    for i := 0 to |props|
      invariant attr == AttrOf(props[..i])
    {
      var p := props[i];
      AttrSnoc(props[..i], p);
      TakeOneMore(props, i);
      if p.key == "name" { attr := attr.(key := p.value); }
      else if p.key == "value" { attr := attr.(values := attr.values + [p.value]); }
      else { attr := attr.(properties := attr.properties[p.key := Property(p.key, p.value)]); }
    }
    assert props[..|props|] == props;
  }

  method ConvertLink(a: Action) returns (link: Link)
    ensures link == LinkOf(WithPayload(a))
  {
    link := Link("", "", map[]);
    var props := a.properties;
    if a.payload != "" {
      props := props + [SplitProperty(a.payload)];
    }
    for i := 0 to |props|
      invariant link == LinkOf(props[..i])
    {
      var p := props[i];
      LastSnoc(props[..i], p, "path");
      LastSnoc(props[..i], p, "target");
      Snoc(props[..i], p, {"path", "target"});
      TakeOneMore(props, i);
      if p.key == "path" { link := link.(path := p.value); }
      else if p.key == "target" { link := link.(target := p.value); }
      else { link := link.(properties := link.properties[p.key := Property(p.key, p.value)]); }
    }
    assert props[..|props|] == props;
  }

  method ConvertLicense(a: Action) returns (license: License)
    ensures license == LicenseOf(a.payload, a.properties)
  {
    license := License("", map[]);
    if a.payload != "" {
      license := license.(payload := a.payload);
    }
    for i := 0 to |a.properties|
      invariant license == LicenseOf(a.payload, a.properties[..i])
    {
      var p := a.properties[i];
      Snoc(a.properties[..i], p, {});
      TakeOneMore(a.properties, i);
      license := license.(properties := license.properties[p.key := Property(p.key, p.value)]);
    }
    assert a.properties[..|a.properties|] == a.properties;
  }

  /** The conversion of a file action; none where a malformed digest makes the code panic. */
  method ConvertFile(a: Action) returns (r: Option<File>)
    ensures r == FileOf(a)
  {
    var file := File(None, "", "", "", "", false, false, "", "", "", [], map[]);
    var primary, hashes := NO_DIGEST, [];
    var props := a.properties;
    if a.payload != "" {
      if '/' in a.payload {
        if '=' in a.payload {
          props := props + [SplitProperty(a.payload)];
        } else {
          file := file.(properties := file.properties + [Property("original-path", Clean(a.payload))]);
        }
      } else {
        var d := FromStr(a.payload);
        if d.Err? {
          return None;
        }
        primary := d.value;
      }
    }
    var read := ReadFileProperties(OriginalPath(a.payload), file, props);
    if read.None? {
      return None;
    }
    file, hashes := read.value.0, read.value.1;
    file := file.(payload := if primary.hash == "" then None else Some(Payload(primary, hashes)));
    return Some(file);
  }

  /** The loop over the properties of a file. */
  method ReadFileProperties(ghost original: seq<Property>, start: File, props: seq<Property>)
      returns (r: Option<(File, seq<Digest>)>)
    requires start == FileFields(original, [])
    ensures r == match HashDigests(props)
      case None => None
      case Some(hashes) => Some((FileFields(original, props), hashes))
  {
    var file, hashes := start, [];
    for i := 0 to |props|
      invariant file == FileFields(original, props[..i])
      invariant HashDigests(props[..i]) == Some(hashes)
    {
      var p := props[i];
      HashSnoc(props[..i], p);
      TakeOneMore(props, i);
      if p.key in HASH_KEYS {
        HashKeepsFields(original, props[..i], p);
        var d := FromStr(p.value);
        if d.Err? {
          MalformedStays(props, i + 1);
          return None;
        }
        hashes := hashes + [d.value];
      } else {
        FileSnoc(original, props[..i], p);
        file := UpdateFile(file, p);
      }
    }
    assert props[..|props|] == props;
    return Some((file, hashes));
  }

  lemma HashKeepsFields(original: seq<Property>, props: seq<Property>, p: Property)
    requires p.key in HASH_KEYS
    ensures FileFields(original, props + [p]) == FileFields(original, props)
  {
    FileSnoc(original, props, p);
  }

  lemma {:induction false} MalformedStays(props: seq<Property>, n: nat)
    requires n <= |props| && HashDigests(props[..n]).None?
    ensures HashDigests(props).None?
  {
    if n < |props| {
      assert props[..|props| - 1][..n] == props[..n];
      MalformedStays(props[..|props| - 1], n);
    } else {
      assert props[..n] == props;
    }
  }

  /** One property of a file that is not a hash. */
  method UpdateFile(file: File, p: Property) returns (r: File)
    requires p.key !in HASH_KEYS
    ensures r == FileAfter(file, p)
  {
    r := file;
    if p.key == "path" { r := r.(path := p.value); }
    else if p.key == "owner" { r := r.(owner := p.value); }
    else if p.key == "group" { r := r.(group := p.value); }
    else if p.key == "mode" { r := r.(mode := p.value); }
    else if p.key == "revert-tag" { r := r.(revertTag := p.value); }
    else if p.key == "original_name" { r := r.(originalName := p.value); }
    else if p.key == "sysattr" { r := r.(sysAttr := p.value); }
    else if p.key == "overlay" { r := r.(overlay := BoolOf(p.value)); }
    else if p.key == "preserve" { r := r.(preserve := BoolOf(p.value)); }
    else if IsFacet(p.key) {
      r := r.(facets := r.facets[FacetKey(p.key) := Facet(FacetKey(p.key), p.value)]);
    } else {
      r := r.(properties := r.properties + [p]);
    }
  }

  /** The original path of a file: its first property of that name. */
  function OriginalPathOf(f: File): Option<string> {
    FirstValue(f.properties, "original-path")
  }

  predicate FirstWithKey(props: seq<Property>, key: string, i: nat) {
    i < |props| && props[i].key == key && forall j :: 0 <= j < i ==> props[j].key != key
  }

  method GetOriginalPath(f: File) returns (r: Option<string>)
    ensures r == OriginalPathOf(f)
    ensures r.None? <==> !HasKey(f.properties, "original-path")
    ensures r.Some? ==>
      exists i: nat :: FirstWithKey(f.properties, "original-path", i) && f.properties[i].value == r.value
  {
    FirstValueMeaning(f.properties, "original-path");
    for i := 0 to |f.properties|
      invariant OriginalPathOf(f) == FirstValue(f.properties[i..], "original-path")
      invariant forall j :: 0 <= j < i ==> f.properties[j].key != "original-path"
    {
      assert f.properties[i..][0] == f.properties[i] && f.properties[i..][1..] == f.properties[i + 1..];
      if f.properties[i].key == "original-path" {
        assert FirstWithKey(f.properties, "original-path", i);
        return Some(f.properties[i].value);
      }
    }
    return None;
  }

  // ---- Where the properties of a file action go ----

  /** A slash payload is the original path, even when a property of that name is also given. */
  lemma PayloadIsOriginalPath(a: Action)
    requires FileOf(a).Some? && '/' in a.payload && '=' !in a.payload
    ensures OriginalPathOf(FileOf(a).value) == Some(Clean(a.payload))
  {
  }

  /** The converse: without such a payload, the original path is the first property of that name. */
  lemma OriginalPathWithoutPayload(a: Action)
    requires FileOf(a).Some? && !('/' in a.payload && '=' !in a.payload)
    ensures OriginalPathOf(FileOf(a).value) == FirstValue(ReadByFile(a), "original-path")
  {
    var props := FileProperties(a);
    ReadsFileProperties(a);
    assert [] + OthersOf(props, FILE_KEYS) == OthersOf(props, FILE_KEYS);
    FirstOther(props, FILE_KEYS, "original-path");
  }

  lemma {:induction false} FirstOther(props: seq<Property>, known: set<string>, key: string)
    requires key !in known && !IsFacet(key)
    ensures FirstValue(OthersOf(props, known), key) == FirstValue(props, key)
  {
    if props == [] {
    } else {
      var n := |props| - 1;
      FirstOther(props[..n], known, key);
      assert props == props[..n] + [props[n]];
      FirstSnoc(props[..n], props[n], key);
      FirstSnoc(OthersOf(props[..n], known), props[n], key);
    }
  }

  lemma {:induction false} FirstSnoc(props: seq<Property>, p: Property, key: string)
    ensures FirstValue(props + [p], key) == if FirstValue(props, key).Some? then FirstValue(props, key)
      else if p.key == key then Some(p.value) else None
  {
    if props == [] {
      assert props + [p] == [p];
    } else {
      assert (props + [p])[1..] == props[1..] + [p];
      FirstSnoc(props[1..], p, key);
    }
  }

  /** Every scalar field holds the last value of its key. */
  predicate TakesLastValues(f: File, props: seq<Property>) {
    && f.path == LastValue(props, "path") && f.owner == LastValue(props, "owner")
    && f.group == LastValue(props, "group") && f.mode == LastValue(props, "mode")
    && f.revertTag == LastValue(props, "revert-tag") && f.originalName == LastValue(props, "original_name")
    && f.sysAttr == LastValue(props, "sysattr")
    && f.overlay == BoolOf(LastValue(props, "overlay")) && f.preserve == BoolOf(LastValue(props, "preserve"))
  }

  /** The properties a file reads: its own, then a payload with a slash and an equals sign, split there. */
  function ReadByFile(a: Action): seq<Property> {
    a.properties + if '/' in a.payload && '=' in a.payload then [SplitProperty(a.payload)] else []
  }

  lemma ReadsFileProperties(a: Action)
    ensures FileProperties(a) == ReadByFile(a)
  {
  }

  /** After the payload as original path, every other property in order and as often as it occurs. */
  ghost predicate KeepsOthers(f: File, payload: string, props: seq<Property>) {
    var original := if '/' in payload && '=' !in payload then [Property("original-path", Clean(payload))] else [];
    && original <= f.properties
    && KeepsRest(
      f.properties[|original|..],
      {"path", "owner", "group", "mode", "revert-tag", "original_name", "sysattr", "overlay", "preserve",
       "chash", "pkg.content-hash"},
      props)
  }

  /**
   A payload without a slash is the primary digest, and the hash properties are the other digests, one
   for one in order; they are kept exactly when the primary hash is not empty.
   */
  ghost predicate KeepsDigests(f: File, payload: string, texts: seq<string>) {
    && (payload == "" || '/' in payload ==> f.payload.None?)
    && (payload != "" && '/' !in payload ==>
      && FromStr(payload).Ok?
      && (f.payload.Some? <==> FromStr(payload).value.hash != "")
      && (f.payload.Some? ==> f.payload.value.primary == FromStr(payload).value))
    && (f.payload.Some? ==>
      && |f.payload.value.additional| == |texts|
      && forall i :: 0 <= i < |texts| ==> FromStr(texts[i]) == Ok(f.payload.value.additional[i]))
  }

  /** Every property of a file action lands in exactly one place, nothing is lost and nothing invented. */
  lemma FileKeepsProperties(a: Action)
    requires FileOf(a).Some?
    ensures var f, props := FileOf(a).value, ReadByFile(a);
      && TakesLastValues(f, props) && KeepsFacets(f.facets, props)
      && KeepsOthers(f, a.payload, props) && KeepsDigests(f, a.payload, HashTexts(props))
  {
    var f, props, original := FileOf(a).value, FileProperties(a), OriginalPath(a.payload);
    ReadsFileProperties(a);
    FacetsKeep(props);
    assert f.properties[|original|..] == OthersOf(props, FILE_KEYS);
    RestKeeps(props, FILE_KEYS);
    HashDigestsMeaning(props);
  }

  /** Exactly when a file action can be converted: every digest in it parses. */
  predicate DigestsParse(a: Action) {
    && (a.payload == "" || '/' in a.payload || FromStr(a.payload).Ok?)
    && forall t :: t in HashTexts(ReadByFile(a)) ==> FromStr(t).Ok?
  }

  lemma FileExactlyWhen(a: Action)
    ensures FileOf(a).Some? <==> DigestsParse(a)
  {
    ReadsFileProperties(a);
    HashDigestsMeaning(FileProperties(a));
  }

  // ---- The other records ----

  /** What the other conversions read: the properties, then the payload, if any, split at its equals sign. */
  function ReadByRecord(a: Action): seq<Property> {
    a.properties + if a.payload == "" then [] else [SplitProperty(a.payload)]
  }

  /** The properties by key: those of other keys than the record's own, with their last values. */
  ghost predicate KeepsByKey(m: map<string, Property>, own: set<string>, props: seq<Property>) {
    && (forall k :: k in m <==> k !in own && HasKey(props, k))
    && forall k :: k in m ==> m[k] == Property(k, LastValue(props, k))
  }

  ghost predicate KeepsFacets(m: map<string, Facet>, props: seq<Property>) {
    && (forall n :: n in m <==> HasKey(props, "facet." + n))
    && forall n :: n in m ==> m[n] == Facet(n, LastValue(props, "facet." + n))
  }

  /** The other properties in order and as often as they occur: neither those of the record nor facets. */
  ghost predicate KeepsRest(rest: seq<Property>, own: set<string>, props: seq<Property>) {
    && InOrder(rest, props)
    && forall p :: multiset(rest)[p] == if p.key in own || "facet." <= p.key then 0 else multiset(props)[p]
  }

  lemma RestKeeps(props: seq<Property>, own: set<string>)
    ensures KeepsRest(OthersOf(props, own), own, props)
  {
    OthersMeaning(props, own, Property("", ""));
    forall p ensures multiset(OthersOf(props, own))[p]
        == if p.key in own || "facet." <= p.key then 0 else multiset(props)[p]
    {
      OthersMeaning(props, own, p);
    }
  }

  lemma ByKeyKeeps(props: seq<Property>, own: set<string>)
    ensures KeepsByKey(ByKey(props, own), own, props)
  {
    forall k { ByKeyMeaning(props, own, k); }
  }

  lemma FacetsKeep(props: seq<Property>)
    ensures KeepsFacets(FacetsOf(props), props)
  {
    forall n { FacetsMeaning(props, n); }
  }

  lemma LinkMeaning(a: Action)
    ensures var link, props := LinkOf(WithPayload(a)), ReadByRecord(a);
      && link.path == LastValue(props, "path") && link.target == LastValue(props, "target")
      && KeepsByKey(link.properties, {"path", "target"}, props)
  {
    assert WithPayload(a) == ReadByRecord(a);
    ByKeyKeeps(ReadByRecord(a), {"path", "target"});
  }

  lemma DirMeaning(a: Action)
    ensures var dir, props := DirOf(WithPayload(a)), ReadByRecord(a);
      && dir.path == LastValue(props, "path") && dir.group == LastValue(props, "group")
      && dir.owner == LastValue(props, "owner") && dir.mode == LastValue(props, "mode")
      && dir.revertTag == LastValue(props, "revert-tag") && dir.salvageFrom == LastValue(props, "salvage-from")
      && KeepsFacets(dir.facets, props)
  {
    assert WithPayload(a) == ReadByRecord(a);
    FacetsKeep(ReadByRecord(a));
  }

  lemma DependencyMeaning(a: Action)
    ensures var d, props := DependencyOf(WithPayload(a)), ReadByRecord(a);
      && d.fmri == LastValue(props, "fmri") && d.dependencyType == LastValue(props, "type")
      && d.predicateFmri == LastValue(props, "predicate") && d.rootImage == LastValue(props, "root-image")
      && KeepsFacets(d.facets, props) && KeepsRest(d.optional, {"fmri", "type", "predicate", "root-image"}, props)
  {
    var props := ReadByRecord(a);
    assert WithPayload(a) == props;
    FacetsKeep(props);
    RestKeeps(props, DEPENDENCY_KEYS);
  }

  lemma AttrMeaning(a: Action)
    ensures var t, props := AttrOf(WithPayload(a)), ReadByRecord(a);
      && t.key == LastValue(props, "name") && t.values == AllValues(props, "value")
      && KeepsByKey(t.properties, {"name", "value"}, props)
  {
    assert WithPayload(a) == ReadByRecord(a);
    ByKeyKeeps(ReadByRecord(a), {"name", "value"});
  }

  /** A license keeps its payload as written and every property by key. */
  lemma LicenseMeaning(payload: string, props: seq<Property>)
    ensures var license := LicenseOf(payload, props);
      license.payload == payload && KeepsByKey(license.properties, {}, props)
  {
    ByKeyKeeps(props, {});
  }

  // ---- Facets in place ----

  /** The facets of a file, directory, dependency or action, which share this implementation. */
  class FacetedAction {
    var facets: map<string, Facet>

    /** Each facet is stored under its own name. */
    ghost predicate Valid()
      reads this
    {
      forall n :: n in facets ==> facets[n].name == n
    }

    constructor ()
      ensures Valid() && facets == map[]
    {
      facets := map[];
    }

    method AddFacet(facet: Facet) returns (added: bool)
      requires Valid()
      modifies this
      ensures Valid() && facets == Stored(old(facets), AddOp(facet))
      ensures added <==> facet.name !in old(facets)
    {
      added := facet.name !in facets;
      facets := facets[facet.name := facet];
    }

    /** Removes whatever is stored under the name; only the result tells whether it was this facet. */
    method RemoveFacet(facet: Facet) returns (removed: bool)
      requires Valid()
      modifies this
      ensures Valid() && facets == Stored(old(facets), RemoveOp(facet))
      ensures removed <==> facet.name in old(facets) && old(facets)[facet.name] == facet
      ensures removed <==> facet in old(facets).Values
    {
      removed := facet.name in facets && facets[facet.name] == facet;
      facets := facets - {facet.name};
    }
  }

  /** Removing a facet with another value reports failure, and the stored facet is gone all the same. */
  method RemoveMismatch(name: string, value: string, other: string) returns (removed: bool, left: map<string, Facet>)
    requires value != other
    ensures !removed && left == map[]
  {
    var action := new FacetedAction();
    var added := action.AddFacet(Facet(name, value));
    removed := action.RemoveFacet(Facet(name, other));
    left := action.facets;
  }

  datatype FacetOp = AddOp(facet: Facet) | RemoveOp(facet: Facet)

  function Stored(facets: map<string, Facet>, op: FacetOp): map<string, Facet> {
    match op
    case AddOp(f) => facets[f.name := f]
    case RemoveOp(f) => facets - {f.name}
  }

  /** Removing changes nothing exactly when the name is free. */
  lemma RemovalChangesExactlyWhenNamed(facets: map<string, Facet>, f: Facet)
    ensures Stored(facets, RemoveOp(f)) == facets <==> f.name !in facets
  {
    assert f.name !in Stored(facets, RemoveOp(f));
  }

  function RunFacets(facets: map<string, Facet>, ops: seq<FacetOp>): map<string, Facet> {
    if ops == [] then facets else Stored(RunFacets(facets, ops[..|ops| - 1]), ops[|ops| - 1])
  }

  /** After any run, a name holds a facet exactly when the last operation on it was an addition, of that facet. */
  lemma {:induction false} LastOperationDecides(ops: seq<FacetOp>, i: nat)
    requires i < |ops| && forall j :: i < j < |ops| ==> ops[j].facet.name != ops[i].facet.name
    ensures var after := RunFacets(map[], ops);
      var f := ops[i].facet;
      if ops[i].AddOp? then f.name in after && after[f.name] == f else f.name !in after
  {
    var n := |ops| - 1;
    if i < n {
      LastOperationDecides(ops[..n], i);
      assert ops[n].facet.name != ops[i].facet.name;
    }
  }

  lemma {:induction false} OnlyAddedFacets(ops: seq<FacetOp>, name: string)
    requires name in RunFacets(map[], ops)
    ensures RunFacets(map[], ops)[name].name == name && AddOp(RunFacets(map[], ops)[name]) in ops
  {
    var n := |ops| - 1;
    if !(ops[n].AddOp? && ops[n].facet.name == name) {
      OnlyAddedFacets(ops[..n], name);
    }
  }
}
