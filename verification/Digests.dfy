/** The text form of digests: `source:algorithm:hash`, or a bare hash. */
module Digests {
  import opened Prelude
  import opened Text

  datatype Algorithm = SHA1 | SHA256 | SHA512 | SHA512Half | SHA3256 | SHA3512Half | SHA3512

  datatype Source = GzipCompressed | GNUElf | GNUElfUnsigned | UncompressedFile | Unknown | PrimaryPayloadHash

  datatype Digest = Digest(hash: string, algorithm: Algorithm, source: Source)

  datatype DigestError = UnknownAlgorithm(algorithm: string) | InvalidDigestFormat(digest: string)

  function AlgorithmName(a: Algorithm): string {
    match a
    case SHA1 => "sha1"
    case SHA256 => "sha256t"
    case SHA512 => "sha512t"
    case SHA512Half => "sha512t_256"
    case SHA3256 => "sha3256t"
    case SHA3512Half => "sha3512t_256"
    case SHA3512 => "sha3512t"
  }

  /** The variant without a given name is called by its own. */
  function SourceName(s: Source): string {
    match s
    case GzipCompressed => "gzip"
    case GNUElf => "gelf"
    case GNUElfUnsigned => "gelf.unsigned"
    case UncompressedFile => "file"
    case Unknown => "unknown"
    case PrimaryPayloadHash => "PrimaryPayloadHash"
  }

  function FindAlgorithm(name: string): Option<Algorithm> {
    if name == "sha1" then Some(SHA1)
    else if name == "sha256t" then Some(SHA256)
    else if name == "sha512t" then Some(SHA512)
    else if name == "sha512t_256" then Some(SHA512Half)
    else if name == "sha3256t" then Some(SHA3256)
    else if name == "sha3512t_256" then Some(SHA3512Half)
    else if name == "sha3512t" then Some(SHA3512)
    else None
  }

  function FindSource(name: string): Option<Source> {
    if name == "gzip" then Some(GzipCompressed)
    else if name == "gelf" then Some(GNUElf)
    else if name == "gelf.unsigned" then Some(GNUElfUnsigned)
    else if name == "file" then Some(UncompressedFile)
    else if name == "unknown" then Some(Unknown)
    else if name == "PrimaryPayloadHash" then Some(PrimaryPayloadHash)
    else None
  }

  /** `Digest::from_str`. */
  function FromStr(s: string): Result<Digest, DigestError> {
    if ':' !in s then Ok(Digest(s, SHA1, PrimaryPayloadHash))
    else
      var parts := Split(s, ':');
      if |parts| < 3 then Err(InvalidDigestFormat(s))
      else
        var source := match FindSource(parts[0]) case Some(x) => x case None => Unknown;
        match FindAlgorithm(parts[1])
        case None => Err(UnknownAlgorithm(parts[1]))
        case Some(algorithm) => Ok(Digest(parts[2], algorithm, source))
  }

  /** `Display for Digest`. */
  function ToString(d: Digest): string {
    SourceName(d.source) + ":" + AlgorithmName(d.algorithm) + ":" + d.hash
  }

  lemma NamesRoundTrip(a: Algorithm, s: Source)
    ensures FindAlgorithm(AlgorithmName(a)) == Some(a) && ':' !in AlgorithmName(a)
    ensures FindSource(SourceName(s)) == Some(s) && ':' !in SourceName(s)
  {
  }

  lemma {:induction false} SplitPrinted(d: Digest)
    ensures ':' in ToString(d)
    ensures Split(ToString(d), ':') == [SourceName(d.source), AlgorithmName(d.algorithm)] + Split(d.hash, ':')
  {
    NamesRoundTrip(d.algorithm, d.source);
    var source, algorithm := SourceName(d.source), AlgorithmName(d.algorithm);
    var tail := algorithm + [':'] + d.hash;
    SplitAt(algorithm, d.hash, ':');
    SplitAt(source, tail, ':');
    assert ToString(d) == source + [':'] + tail;
    assert (source + [':'] + tail)[|source|] == ':';
  }

  /** A digest is read back from its text exactly when its hash holds no colon. */
  lemma DigestRoundTrip(d: Digest)
    ensures FromStr(ToString(d)) == Ok(d) <==> ':' !in d.hash
  {
    SplitPrinted(d);
    NamesRoundTrip(d.algorithm, d.source);
    var parts := Split(ToString(d), ':');
    assert parts[2] == Split(d.hash, ':')[0] && parts[2] in parts;
    if ':' !in d.hash {
      SplitWhole(d.hash, ':');
    }
  }

  /**
   Printing a parsed digest and parsing it again changes nothing, for bare hashes, unknown sources
   and texts with more than three parts alike.
   */
  lemma ParsePrintParse(s: string)
    ensures FromStr(s).Ok? ==> FromStr(ToString(FromStr(s).value)) == FromStr(s)
  {
    if FromStr(s).Ok? {
      var d := FromStr(s).value;
      if ':' in s {
        assert Split(s, ':')[2] in Split(s, ':');
      }
      DigestRoundTrip(d);
    }
  }

  /** The text `source:name:rest`, the first two colons shown. */
  predicate ThreeParts(s: string, source: string, name: string, rest: string) {
    s == source + [':'] + (name + [':'] + rest) && ':' !in source && ':' !in name
  }

  lemma SplitThreeParts(s: string, source: string, name: string, rest: string)
    requires ThreeParts(s, source, name, rest)
    ensures ':' in s && Split(s, ':') == [source, name] + Split(rest, ':')
  {
    SplitAt(source, name + [':'] + rest, ':');
    SplitAt(name, rest, ':');
    assert s[|source|] == ':';
  }

  lemma ThreePartsOf(s: string) returns (rest: string)
    requires |Split(s, ':')| >= 3
    ensures ThreeParts(s, Split(s, ':')[0], Split(s, ':')[1], rest)
  {
    var parts := Split(s, ':');
    assert parts[0] in parts && parts[1] in parts;
    JoinSplit(s, ':');
    rest := Join(parts[2..], ":");
    assert parts[1..][1..] == parts[2..];
    assert Join(parts, ":") == parts[0] + ":" + Join(parts[1..], ":");
  }

  /** Exactly which texts are digests: bare ones, and those with a known algorithm after the first colon. */
  lemma ParsesExactlyWhen(s: string)
    ensures FromStr(s).Ok? <==>
      ':' !in s || exists source, name, rest :: ThreeParts(s, source, name, rest) && FindAlgorithm(name).Some?
  {
    if FromStr(s).Ok? && ':' in s {
      var rest := ThreePartsOf(s);
      assert ThreeParts(s, Split(s, ':')[0], Split(s, ':')[1], rest);
    }
    if source, name, rest :| ThreeParts(s, source, name, rest) && FindAlgorithm(name).Some? {
      SplitThreeParts(s, source, name, rest);
    }
  }

  /** What a bare hash means: it prints with the default source and algorithm. */
  lemma BareHashMeaning(s: string)
    requires ':' !in s
    ensures FromStr(s).Ok? && FromStr(s).value.hash == s
    ensures ToString(FromStr(s).value) == "PrimaryPayloadHash:sha1:" + s
  {
  }

  /** The source a name stands for: the one of that name, or the unknown source. */
  predicate Named(source: Source, name: string) {
    SourceName(source) == name || (source == Unknown && forall x: Source :: SourceName(x) != name)
  }

  lemma FoundNames(name: string)
    ensures match FindAlgorithm(name)
      case Some(a) => AlgorithmName(a) == name
      case None => forall a: Algorithm :: AlgorithmName(a) != name
    ensures match FindSource(name)
      case Some(x) => SourceName(x) == name
      case None => forall x: Source :: SourceName(x) != name
  {
    if FindAlgorithm(name).None? {
      forall a: Algorithm ensures AlgorithmName(a) != name { NamesRoundTrip(a, Unknown); }
    }
    if FindSource(name).None? {
      forall x: Source ensures SourceName(x) != name { NamesRoundTrip(SHA1, x); }
    }
  }

  /**
   What a text with two colons means: source and algorithm by name, the hash up to the next colon; an
   algorithm of no known name is reported.
   */
  lemma ThreePartsMeaning(s: string, source: string, name: string, rest: string)
    requires ThreeParts(s, source, name, rest)
    ensures (exists a: Algorithm :: AlgorithmName(a) == name) ==>
      && FromStr(s).Ok? && AlgorithmName(FromStr(s).value.algorithm) == name
      && Named(FromStr(s).value.source, source) && UpToColon(rest, FromStr(s).value.hash)
    ensures (forall a: Algorithm :: AlgorithmName(a) != name) ==> FromStr(s) == Err(UnknownAlgorithm(name))
  {
    SplitThreeParts(s, source, name, rest);
    FoundNames(name);
    FoundNames(source);
    FirstPart(rest);
  }

  /** The text before the first colon. */
  predicate UpToColon(s: string, hash: string) {
    ':' !in hash && hash <= s && (|hash| < |s| ==> s[|hash|] == ':')
  }

  lemma {:induction false} FirstPart(s: string)
    ensures UpToColon(s, Split(s, ':')[0])
  {
    assert Split(s, ':')[0] in Split(s, ':');
    if s == "" || s[0] == ':' {
    } else {
      FirstPart(s[1..]);
    }
  }

  /** With one colon only, the text is rejected as a whole. */
  lemma OneColonFails(source: string, rest: string)
    requires ':' !in source && ':' !in rest
    ensures FromStr(source + [':'] + rest) == Err(InvalidDigestFormat(source + [':'] + rest))
  {
    SplitAt(source, rest, ':');
    SplitWhole(rest, ':');
    assert (source + [':'] + rest)[|source|] == ':';
  }

  /** The names as they are written in manifests. */
  lemma WrittenNames(word: string, source: Source, name: string, algorithm: Algorithm, h: string)
    requires (word, source) in {
      ("gzip", GzipCompressed), ("gelf", GNUElf), ("gelf.unsigned", GNUElfUnsigned), ("file", UncompressedFile),
      ("unknown", Unknown), ("PrimaryPayloadHash", PrimaryPayloadHash)}
    requires (name, algorithm) in {
      ("sha1", SHA1), ("sha256t", SHA256), ("sha512t", SHA512), ("sha512t_256", SHA512Half), ("sha3256t", SHA3256),
      ("sha3512t_256", SHA3512Half), ("sha3512t", SHA3512)}
    requires ':' !in h
    ensures FromStr(word + ":" + name + ":" + h) == Ok(Digest(h, algorithm, source))
  {
    PrintsAs(Digest(h, algorithm, source), word, name);
  }

  lemma PrintsAs(d: Digest, source: string, algorithm: string)
    requires SourceName(d.source) == source && AlgorithmName(d.algorithm) == algorithm && ':' !in d.hash
    ensures FromStr(source + ":" + algorithm + ":" + d.hash) == Ok(d)
  {
    DigestRoundTrip(d);
  }
}
