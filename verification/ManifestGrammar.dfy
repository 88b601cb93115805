/**
 The grammar of package manifests (manifest.pest), as functions from text to the pairs the parser
 emits and the text left over. Repetition is greedy and never given back; choice takes the first
 alternative that matches. In a rule that is not atomic, blanks and comments may stand between any
 two parts.
 */
module ManifestGrammar {
  import opened Prelude

  datatype Parsed<+T> = Fail | Done(value: T, rest: string)

  /** `name=value`, the value as written, quotes included. */
  datatype PropertyPair = PropertyPair(name: string, text: string)

  datatype ActionPair = ActionPair(keyword: string, payload: Option<string>, properties: seq<PropertyPair>)

  // ---- Characters and tokens: each function gives the length of the match, 0 for none ----

  predicate NameChar(c: char) {
    'a' <= c <= 'z' || 'A' <= c <= 'Z' || '0' <= c <= '9' || c == '.' || c == '_' || c == '-' || c == '/'
  }

  function NewlineLength(s: string): (n: nat)
    ensures n <= |s|
  {
    if "\n" <= s then 1 else if "\r\n" <= s then 2 else if "\r" <= s then 1 else 0
  }

  /** A blank: a space, a tab, or a backslash that continues the line. */
  function BlankLength(s: string): (n: nat)
    ensures n <= |s|
  {
    if s == "" then 0
    else if s[0] == '\\' then
      if NewlineLength(s[1..]) > 0 then 1 + NewlineLength(s[1..]) else 0
    else if s[0] == ' ' || s[0] == '\t' then 1
    else 0
  }

  /** The characters before the first newline, or all of them. */
  function LineLength(s: string): (n: nat)
    ensures n <= |s|
  {
    if s == "" || NewlineLength(s) > 0 then 0 else 1 + LineLength(s[1..])
  }

  /** A comment runs to the end of its line and takes the newline, which must be there. */
  function CommentLength(s: string): (n: nat)
    ensures n <= |s|
  {
    if s == "" || s[0] != '#' then 0
    else
      var n := LineLength(s[1..]);
      var end := NewlineLength(s[1..][n..]);
      if end > 0 then 1 + n + end else 0
  }

  /** What may stand between the parts of a rule: any blanks and comments. */
  function Skip(s: string): (rest: string)
    ensures |rest| <= |s|
    decreases |s|
  {
    if BlankLength(s) > 0 then Skip(s[BlankLength(s)..])
    else if CommentLength(s) > 0 then Skip(s[CommentLength(s)..])
    else s
  }

  function NameLength(s: string): (n: nat)
    ensures n <= |s|
  {
    if s == "" || !NameChar(s[0]) then 0 else 1 + NameLength(s[1..])
  }

  /** Characters that start neither a blank nor a newline. */
  function BareLength(s: string): (n: nat)
    ensures n <= |s|
  {
    if s == "" || BlankLength(s) > 0 || NewlineLength(s) > 0 then 0 else 1 + BareLength(s[1..])
  }

  /** The characters before `stop`, or all of them. */
  function UntilLength(s: string, stop: char): (n: nat)
    ensures n <= |s|
  {
    if s == "" || s[0] == stop then 0 else 1 + UntilLength(s[1..], stop)
  }

  function QuotedLength(s: string): (n: nat)
    ensures n <= |s|
  {
    if s == "" || s[0] != '"' then 0
    else
      var n := 1 + UntilLength(s[1..], '"');
      if n < |s| then n + 1 else 0
  }

  function ValueLength(s: string): (n: nat)
    ensures n <= |s|
  {
    if QuotedLength(s) > 0 then QuotedLength(s) else BareLength(s)
  }

  function KeywordLength(s: string): (n: nat)
    ensures n <= |s|
  {
    if "set" <= s then 3
    else if "depend" <= s then 6
    else if "dir" <= s then 3
    else if "file" <= s then 4
    else if "license" <= s then 7
    else if "hardlink" <= s then 8
    else if "link" <= s then 4
    else if "driver" <= s then 6
    else if "group" <= s then 5
    else if "user" <= s then 4
    else if "legacy" <= s then 6
    else 0
  }

  // ---- Properties ----

  function ParseProperty(s: string): (r: Parsed<PropertyPair>)
    ensures r.Done? ==> |r.rest| < |s|
  {
    var n := NameLength(s);
    if n == 0 then Fail
    else
      var atEquals := Skip(s[n..]);
      if !("=" <= atEquals) then Fail
      else
        var atValue := Skip(atEquals[1..]);
        var v := ValueLength(atValue);
        if v == 0 then Fail
        else Done(PropertyPair(s[..n], atValue[..v]), atValue[v..])
  }

  /** Further properties, each after skipped text; what follows the last one is not skipped. */
  function MoreProperties(s: string): (r: (seq<PropertyPair>, string))
    ensures |r.1| <= |s|
    decreases |s|
  {
    match ParseProperty(Skip(s))
    case Fail => ([], s)
    case Done(p, rest) =>
      var (ps, end) := MoreProperties(rest);
      ([p] + ps, end)
  }

  /** `property*` at a place where text has already been skipped. */
  function Properties(s: string): (r: (seq<PropertyPair>, string))
    ensures |r.1| <= |s|
  {
    match ParseProperty(s)
    case Fail => ([], s)
    case Done(p, rest) =>
      var (ps, end) := MoreProperties(rest);
      ([p] + ps, end)
  }

  // ---- Actions and transforms ----

  /** The property or payload that must follow the keyword: a property if one can be read. */
  function ParseFirst(s: string): (r: Parsed<(Option<string>, seq<PropertyPair>)>)
    ensures r.Done? ==> |r.rest| < |s|
  {
    match ParseProperty(s)
    case Done(p, rest) => Done((None, [p]), rest)
    case Fail =>
      var n := ValueLength(s);
      if n == 0 then Fail else Done((Some(s[..n]), []), s[n..])
  }

  function ParseAction(s: string): (r: Parsed<ActionPair>)
    ensures r.Done? ==> |r.rest| < |s|
  {
    var k := KeywordLength(s);
    if k == 0 then Fail
    else
      match ParseFirst(Skip(s[k..]))
      case Fail => Fail
      case Done((payload, first), rest) =>
        var (more, end) := Properties(Skip(rest));
        var atEnd := Skip(end);
        if NewlineLength(atEnd) > 0 || atEnd == "" then
          Done(ActionPair(s[..k], payload, first + more), atEnd[NewlineLength(atEnd)..])
        else Fail
  }

  /** A transform, whose content the reader drops. */
  function ParseTransform(s: string): (r: Parsed<()>)
    ensures r.Done? ==> |r.rest| < |s|
  {
    if !("<transform " <= s) then Fail
    else
      var atKeyword := Skip(s[11..]);
      var k := KeywordLength(atKeyword);
      if k == 0 then Fail
      else
        match ParseProperty(Skip(atKeyword[k..]))
        case Fail => Fail
        case Done(_, rest) =>
          var (_, end) := Properties(Skip(rest));
          var atArrow := Skip(end);
          if !("->" <= atArrow) then Fail
          else
            var operation := Skip(atArrow[2..]);
            var atClose := Skip(operation[UntilLength(operation, '>')..]);
            if ">" <= atClose then Done((), atClose[1..]) else Fail
  }

  // ---- The manifest ----

  /** One element of the manifest: a newline, a transform or an action. */
  function ParseItem(s: string): (r: Parsed<seq<ActionPair>>)
    ensures r.Done? ==> |r.rest| < |s|
  {
    if NewlineLength(s) > 0 then Done([], s[NewlineLength(s)..])
    else if ParseTransform(s).Done? then Done([], ParseTransform(s).rest)
    else
      match ParseAction(s)
      case Fail => Fail
      case Done(a, rest) => Done([a], rest)
  }

  /** As many elements as can be read, each after skipped text. */
  function ParseItems(s: string): (r: (seq<ActionPair>, string))
    ensures |r.1| <= |s|
    decreases |s|
  {
    match ParseItem(Skip(s))
    case Fail => ([], s)
    case Done(actions, rest) =>
      var (more, end) := ParseItems(rest);
      (actions + more, end)
  }

  /** The whole text: at least one element, and nothing left but skipped text. */
  function ParseManifest(s: string): Option<seq<ActionPair>> {
    var (actions, end) := ParseItems(s);
    if ParseItem(Skip(s)).Done? && Skip(end) == "" then Some(actions) else None
  }
}
