/** Workspace resource URIs: printing an identity and reading it back through the URL parser. */
module ResourceUri {
  import opened Wrappers
  import opened UriText

  datatype Identity = Identity(
    host: string,
    relativePath: string,
    revision: Option<string>,
    rootId: string,
    target: string
  )

  /** OtherSpelling: text the URL parser would first have to normalise, not modelled. */
  datatype UriError = Invalid | OtherSpelling

  const PREFIX := "codex-bridge://workspace/"

  // ------------------------------------------------------------------ validation

  predicate ValidIdentifier(value: string, maxLength: nat) {
    1 <= Utf16Length(value) <= maxLength && '\0' !in value && '/' !in value && '\\' !in value
  }

  predicate ValidSegment(segment: string) {
    segment != "" && segment != "." && segment != ".." && Utf16Length(segment) <= 255
  }

  predicate ValidRelativePath(value: string) {
    && 1 <= Utf16Length(value) <= 16384 && '\0' !in value
    && forall s | s in Split(value, '/') :: ValidSegment(s)
  }

  predicate ValidRevision(value: string) {
    |value| == 64 && forall i | 0 <= i < 64 :: '0' <= value[i] <= '9' || 'a' <= value[i] <= 'f'
  }

  predicate ValidTarget(value: string) {
    value == "local" || value == "remote"
  }

  predicate ValidIdentity(id: Identity) {
    && ValidIdentifier(id.host, 512) && ValidIdentifier(id.rootId, 128) && ValidRelativePath(id.relativePath)
    && ValidTarget(id.target) && (id.revision.Some? ==> ValidRevision(id.revision.value))
  }

  // ------------------------------------------------------------------ building

  function Field(key: string, value: string): string {
    Encoded(Form, key) + "=" + Encoded(Form, value)
  }

  function Fields(id: Identity): seq<(string, string)> {
    [("host", id.host), ("target", id.target)]
    + if id.revision.Some? then [("revision", id.revision.value)] else []
  }

  function Written(fields: seq<(string, string)>): seq<string> {
    seq(|fields|, i requires 0 <= i < |fields| => Field(fields[i].0, fields[i].1))
  }

  function Segments(id: Identity): seq<string> {
    [id.rootId] + Split(id.relativePath, '/')
  }

  function EncodedAll(segments: seq<string>): seq<string> {
    seq(|segments|, i requires 0 <= i < |segments| => Encoded(Component, segments[i]))
  }

  function Path(id: Identity): string {
    Joined(EncodedAll(Segments(id)), '/')
  }

  function Query(id: Identity): string {
    Joined(Written(Fields(id)), '&')
  }

  function Build(id: Identity): Result<string, UriError> {
    if !ValidIdentity(id) then Err(Invalid)
    else Ok(PREFIX + (Path(id) + "?" + Query(id)))
  }

  // ------------------------------------------------------------------ the URL parser

  /** Characters the URL parser takes as they are in a path and a query. */
  predicate PlainInUrl(c: char) {
    '!' <= c <= '~' && c !in "\"#<>`{}^|"
  }

  predicate PlainText(text: string) {
    forall i | 0 <= i < |text| :: PlainInUrl(text[i])
  }

  predicate IsSingleDot(s: string) {
    s == "." || s == "%2e" || s == "%2E"
  }

  /** Two single dots in a row, in any of their spellings. */
  predicate IsDoubleDot(s: string) {
    || (|s| > 1 && IsSingleDot(s[..1]) && IsSingleDot(s[1..]))
    || (|s| > 3 && IsSingleDot(s[..3]) && IsSingleDot(s[3..]))
  }

  /** Dot segments resolved, as the path state of the WHATWG URL Standard (section 4.4) does. */
  function Resolved(segments: seq<string>, out: seq<string>): seq<string> {
    if segments == [] then out
    else
      var rest := segments[1..];
      var ending := if rest == [] then [""] else [];
      if IsDoubleDot(segments[0]) then Resolved(rest, (if out == [] then [] else out[..|out| - 1]) + ending)
      else if IsSingleDot(segments[0]) then Resolved(rest, out + ending)
      else Resolved(rest, out + [segments[0]])
  }

  function ReadField(field: string): Option<(string, string)> {
    var (key, value) := Cut(field, '=');
    match (Decoded(Form, key), Decoded(Form, if value.Some? then value.value else ""))
    case (Some(k), Some(v)) => Some((k, v))
    case _ => None
  }

  /** The form-urlencoded parser (section 5); None where bytes that are not UTF-8 would be replaced. */
  function ReadFields(fields: seq<string>): Option<seq<(string, string)>> {
    if fields == [] then Some([])
    else
      match ReadFields(fields[1..])
      case None => None
      case Some(others) =>
        if fields[0] == "" then Some(others)
        else
          match ReadField(fields[0])
          case None => None
          case Some(field) => Some([field] + others)
  }

  function GetAll(fields: seq<(string, string)>, key: string): seq<string> {
    if fields == [] then []
    else (if fields[0].0 == key then [fields[0].1] else []) + GetAll(fields[1..], key)
  }

  // ------------------------------------------------------------------ parsing

  function DecodedAll(segments: seq<string>): Option<seq<string>> {
    if segments == [] then Some([])
    else
      match (Decoded(Component, segments[0]), DecodedAll(segments[1..]))
      case (Some(first), Some(others)) => Some([first] + others)
      case _ => None
  }

  predicate FieldsAccepted(fields: seq<(string, string)>) {
    && (forall f | f in fields :: f.0 in ["host", "target", "revision"] && |GetAll(fields, f.0)| == 1)
    && |GetAll(fields, "host")| == 1 && |GetAll(fields, "target")| == 1
  }

  function Identified(segments: seq<string>, fields: seq<(string, string)>): Result<Identity, UriError> {
    if !FieldsAccepted(fields) || (exists s | s in segments :: '/' in s) || segments == [] then Err(Invalid)
    else
      var revisions := GetAll(fields, "revision");
      var id := Identity(
        GetAll(fields, "host")[0],
        Joined(segments[1..], '/'),
        if revisions == [] then None else Some(revisions[0]),
        segments[0],
        GetAll(fields, "target")[0]);
      if ValidIdentity(id) then Ok(id) else Err(Invalid)
  }

  /** What follows the scheme and the authority. */
  function ParseRest(rest: string): Result<Identity, UriError> {
    var (path, query) := Cut(rest, '?');
    match ReadFields(Split(if query.Some? then query.value else "", '&'))
    case None => Err(OtherSpelling)
    case Some(fields) =>
      match DecodedAll(Resolved(Split(path, '/'), []))
      case None => Err(Invalid)
      case Some(segments) => Identified(segments, fields)
  }

  function Parse(uri: string): Result<Identity, UriError> {
    if !(PREFIX <= uri) || !PlainText(uri) then Err(OtherSpelling)
    else ParseRest(uri[|PREFIX|..])
  }

  // ------------------------------------------------------------------ what Build writes

  lemma WrittenIsPlain(coding: Coding, s: string)
    ensures forall i | 0 <= i < |Encoded(coding, s)| ::
              PlainInUrl(Encoded(coding, s)[i]) && Encoded(coding, s)[i] !in "/?&="
  {
    EncodedIsWritten(coding, s);
    var text := Encoded(coding, s);
    forall i | 0 <= i < |text|
      ensures PlainInUrl(text[i]) && text[i] !in "/?&="
    {
      assert UriText.Written(coding, text[i]);
    }
  }

  lemma {:induction false} JoinedIsPlain(parts: seq<string>, sep: char, other: char)
    requires PlainInUrl(sep) && sep != other
    requires forall p | p in parts :: PlainText(p) && other !in p
    ensures PlainText(Joined(parts, sep)) && other !in Joined(parts, sep)
  {
    if parts != [] {
      assert parts[0] in parts;
      if |parts| > 1 {
        JoinedIsPlain(parts[1..], sep, other);
      }
    }
  }

  lemma PathIsPlain(id: Identity)
    ensures PlainText(Path(id)) && '?' !in Path(id)
    ensures Split(Path(id), '/') == EncodedAll(Segments(id))
  {
    var parts := EncodedAll(Segments(id));
    forall p | p in parts
      ensures PlainText(p) && '?' !in p && '/' !in p
    {
      var i :| 0 <= i < |parts| && p == parts[i];
      WrittenIsPlain(Component, Segments(id)[i]);
    }
    JoinedIsPlain(parts, '/', '?');
    SplitOfJoined(parts, '/');
  }

  lemma FieldReads(key: string, value: string)
    ensures PlainText(Field(key, value)) && '&' !in Field(key, value) && Field(key, value) != ""
    ensures ReadField(Field(key, value)) == Some((key, value))
  {
    WrittenIsPlain(Form, key);
    WrittenIsPlain(Form, value);
    CutAt(Encoded(Form, key), Encoded(Form, value), '=');
    CodingRoundTrips(Form, key);
    CodingRoundTrips(Form, value);
  }

  lemma {:induction false} FieldsRead(fields: seq<(string, string)>)
    ensures ReadFields(Written(fields)) == Some(fields)
  {
    hide ReadField, Field;
    if fields != [] {
      FieldReads(fields[0].0, fields[0].1);
      FieldsRead(fields[1..]);
      assert Written(fields)[1..] == Written(fields[1..]);
      assert fields == [fields[0]] + fields[1..];
    }
  }

  lemma QueryReads(id: Identity)
    ensures PlainText(Query(id)) && ReadFields(Split(Query(id), '&')) == Some(Fields(id))
  {
    var fields := Fields(id);
    assert fields != [];
    hide Field, ReadFields, Fields;
    forall p | p in Written(fields)
      ensures PlainText(p) && '&' !in p && '\0' !in p
    {
      var i :| 0 <= i < |fields| && p == Written(fields)[i];
      FieldReads(fields[i].0, fields[i].1);
    }
    JoinedIsPlain(Written(fields), '&', '\0');
    SplitOfJoined(Written(fields), '&');
    FieldsRead(fields);
  }

  predicate NoDots(segments: seq<string>) {
    forall s | s in segments :: !IsSingleDot(s) && !IsDoubleDot(s)
  }

  lemma OneNamePasses(name: string, rest: seq<string>, out: seq<string>)
    requires !IsSingleDot(name) && !IsDoubleDot(name)
    ensures Resolved([name] + rest, out) == Resolved(rest, out + [name])
  {
    hide IsSingleDot, IsDoubleDot;
    assert ([name] + rest)[1..] == rest;
  }

  /** Names are kept. */
  lemma {:induction false} NamesPass(names: seq<string>, rest: seq<string>, out: seq<string>)
    requires NoDots(names)
    ensures Resolved(names + rest, out) == Resolved(rest, out + names)
  {
    hide Resolved, IsSingleDot, IsDoubleDot;
    if names == [] {
      assert names + rest == rest && out + names == out;
    } else {
      assert names[0] in names;
      NamesPass(names[1..], rest, out + [names[0]]);
      OneNamePasses(names[0], names[1..] + rest, out);
      assert names + rest == [names[0]] + (names[1..] + rest);
      assert (out + [names[0]]) + names[1..] == out + names;
    }
  }

  lemma NoDotsStay(segments: seq<string>)
    requires NoDots(segments)
    ensures Resolved(segments, []) == segments
  {
    NamesPass(segments, [], []);
    var none: seq<string> := [];
    assert segments + none == segments && none + segments == segments;
  }

  lemma {:induction false} EncodedAllDecodes(segments: seq<string>)
    ensures DecodedAll(EncodedAll(segments)) == Some(segments)
  {
    if segments != [] {
      CodingRoundTrips(Component, segments[0]);
      EncodedAllDecodes(segments[1..]);
      assert EncodedAll(segments)[1..] == EncodedAll(segments[1..]);
      assert segments == [segments[0]] + segments[1..];
    }
  }

  lemma ReadsDot(dot: string, rest: string)
    requires IsSingleDot(dot)
    ensures Decoded(Component, dot + rest) == Prepended('.', Decoded(Component, rest))
  {
    var text := dot + rest;
    if dot == "." {
      assert text[1..] == rest && PercentByte(text).None?;
    } else {
      assert PercentByte(text) == Some(0x2E) && text[3..] == rest;
      OneByteMore(text, 0x2E, []);
      assert [0x2E] + [] == [0x2E];
      assert FromUtf8([0x2E]) == Some('.');
    }
  }

  /** What a spelling of a dot segment decodes to. */
  lemma DotSpellings(text: string)
    requires IsSingleDot(text) || IsDoubleDot(text)
    ensures Decoded(Component, text) == Some(if IsSingleDot(text) then "." else "..")
  {
    if IsSingleDot(text) {
      ReadsDot(text, "");
      assert text + "" == text && ['.'] + "" == ".";
    } else {
      var n := if IsSingleDot(text[..1]) && IsSingleDot(text[1..]) then 1 else 3;
      ReadsDot(text[..n], text[n..]);
      ReadsDot(text[n..], "");
      assert text == text[..n] + text[n..] && text[n..] + "" == text[n..];
      assert ['.'] + "" == "." && ['.'] + "." == "..";
    }
  }

  /** Only a dot segment is printed as one. */
  lemma OnlyDotsPrintAsDots(s: string)
    requires s != "." && s != ".."
    ensures !IsSingleDot(Encoded(Component, s)) && !IsDoubleDot(Encoded(Component, s))
  {
    CodingRoundTrips(Component, s);
    if IsSingleDot(Encoded(Component, s)) || IsDoubleDot(Encoded(Component, s)) {
      DotSpellings(Encoded(Component, s));
    }
  }

  predicate IsDot(s: string) {
    s == "." || s == ".."
  }

  lemma SegmentsOfValid(id: Identity)
    requires ValidIdentity(id)
    ensures forall s | s in Segments(id) :: '/' !in s
    ensures forall s | s in Segments(id)[1..] :: !IsDot(s)
    ensures Joined(Segments(id)[1..], '/') == id.relativePath
  {
    JoinedOfSplit(id.relativePath, '/');
    assert Segments(id)[1..] == Split(id.relativePath, '/');
  }

  lemma EncodedAllHaveNoDots(segments: seq<string>)
    requires forall s | s in segments :: !IsDot(s)
    ensures NoDots(EncodedAll(segments))
  {
    hide IsSingleDot, IsDoubleDot, Encoded;
    forall s | s in EncodedAll(segments)
      ensures !IsSingleDot(s) && !IsDoubleDot(s)
    {
      var i :| 0 <= i < |segments| && s == EncodedAll(segments)[i];
      assert segments[i] in segments;
      OnlyDotsPrintAsDots(segments[i]);
    }
  }

  /** The URL parser keeps segments that are no dots. */
  lemma SegmentsRead(segments: seq<string>)
    requires forall s | s in segments :: !IsDot(s)
    ensures DecodedAll(Resolved(EncodedAll(segments), [])) == Some(segments)
  {
    EncodedAllHaveNoDots(segments);
    EncodedAllDecodes(segments);
    hide EncodedAll, DecodedAll, Resolved, NoDots;
    NoDotsStay(EncodedAll(segments));
  }

  /** The URL parser keeps every segment but a root id that is itself a dot segment. */
  lemma PathReads(id: Identity)
    requires ValidIdentity(id)
    ensures DecodedAll(Resolved(Split(Path(id), '/'), []))
            == Some(if IsDot(id.rootId) then Segments(id)[1..] else Segments(id))
  {
    PathIsPlain(id);
    SegmentsOfValid(id);
    var all, tail := Segments(id), Segments(id)[1..];
    FirstEncoded(all);
    assert all == [id.rootId] + tail && tail != [];
    hide EncodedAll, DecodedAll, Resolved, Encoded, Split, Path, ValidIdentity, Segments;
    if IsDot(id.rootId) {
      RootDotVanishes(id.rootId, EncodedAll(all));
      SegmentsRead(tail);
    } else {
      SegmentsRead(all);
    }
  }

  lemma FirstEncoded(segments: seq<string>)
    requires segments != []
    ensures |EncodedAll(segments)| == |segments| && EncodedAll(segments)[0] == Encoded(Component, segments[0])
    ensures EncodedAll(segments)[1..] == EncodedAll(segments[1..])
  {
    hide Encoded;
  }

  lemma RootDotVanishes(rootId: string, segments: seq<string>)
    requires IsDot(rootId) && |segments| > 1 && segments[0] == Encoded(Component, rootId)
    ensures Resolved(segments, []) == Resolved(segments[1..], [])
  {
    KeptTextIsItsOwnCode(Component, rootId);
    var none: seq<string> := [];
    assert none + none == none;
  }

  lemma ParseOf(path: string, query: string, segments: seq<string>, fields: seq<(string, string)>)
    requires PlainText(path) && '?' !in path && PlainText(query)
    requires ReadFields(Split(query, '&')) == Some(fields)
    requires DecodedAll(Resolved(Split(path, '/'), [])) == Some(segments)
    ensures Parse(PREFIX + (path + "?" + query)) == Identified(segments, fields)
  {
    assert PlainText("?");
    hide PlainText, Parse, ReadFields, Split, DecodedAll, Resolved, Identified, Cut;
    PlainConcat(path, "?");
    PlainConcat(path + "?", query);
    CutAt(path, query, '?');
    ParsePlain(path + "?" + query);
  }

  lemma PlainConcat(a: string, b: string)
    requires PlainText(a) && PlainText(b)
    ensures PlainText(a + b)
  {
  }

  lemma ParsePlain(rest: string)
    requires PlainText(rest)
    ensures Parse(PREFIX + rest) == ParseRest(rest)
  {
    assert PlainText(PREFIX);
    PlainConcat(PREFIX, rest);
    DropsPrefix(PREFIX, rest);
    hide ParseRest, PlainText;
  }

  lemma DropsPrefix(prefix: string, rest: string)
    ensures prefix <= prefix + rest && (prefix + rest)[|prefix|..] == rest
  {
  }

  lemma UriReads(id: Identity)
    requires ValidIdentity(id)
    ensures Parse(Build(id).value)
            == Identified(if IsDot(id.rootId) then Segments(id)[1..] else Segments(id), Fields(id))
  {
    PathIsPlain(id);
    QueryReads(id);
    PathReads(id);
    var segments := if IsDot(id.rootId) then Segments(id)[1..] else Segments(id);
    hide ValidIdentity, Path, Query, Fields, Segments, PlainText, Parse, ReadFields, Resolved, DecodedAll;
    ParseOf(Path(id), Query(id), segments, Fields(id));
  }

  lemma FieldsAreAccepted(id: Identity)
    ensures FieldsAccepted(Fields(id))
    ensures GetAll(Fields(id), "host") == [id.host] && GetAll(Fields(id), "target") == [id.target]
    ensures GetAll(Fields(id), "revision") == if id.revision.Some? then [id.revision.value] else []
  {
    FieldValues(id, "host");
    FieldValues(id, "target");
    FieldValues(id, "revision");
    hide GetAll;
  }

  lemma FieldValues(id: Identity, key: string)
    ensures GetAll(Fields(id), key)
            == (if key == "host" then [id.host] else if key == "target" then [id.target]
                else if key == "revision" && id.revision.Some? then [id.revision.value] else [])
  {
    var fields := Fields(id);
    assert fields[1..][0] == ("target", id.target);
    if id.revision.Some? {
      assert fields[1..][1..] == [("revision", id.revision.value)];
      assert fields[1..][1..][1..] == [];
    } else {
      assert fields[1..][1..] == [];
    }
    assert GetAll(fields[1..][1..], key) == if key == "revision" && id.revision.Some? then [id.revision.value] else [];
    assert GetAll(fields[1..], key) == (if key == "target" then [id.target] else []) + GetAll(fields[1..][1..], key);
  }

  // ------------------------------------------------------------------ round trips

  /** Every identity that can be printed is read back as itself, except one whose root id is "."
      or "..": URL dot-segment removal drops that. */
  lemma RoundTripsUnlessRootIsDot(id: Identity)
    requires Build(id).Ok?
    ensures Parse(Build(id).value) == Ok(id) <==> !IsDot(id.rootId)
  {
    UriReads(id);
    SegmentsOfValid(id);
    FieldsAreAccepted(id);
    if IsDot(id.rootId) {
      var tail := Segments(id)[1..];
      assert tail != [] && tail[0] in tail;
    }
  }

  /** Hence printing is injective on those. */
  lemma DistinctIdentitiesPrintDistinctly(id: Identity, other: Identity)
    requires Build(id).Ok? && Build(id) == Build(other) && !IsDot(id.rootId) && !IsDot(other.rootId)
    ensures id == other
  {
    RoundTripsUnlessRootIsDot(id);
    RoundTripsUnlessRootIsDot(other);
  }

  // ------------------------------------------------------------------ the other direction

  lemma OnlyDotEncodesDot(bytes: seq<Byte>)
    requires bytes != [] && |bytes| == SequenceLength(bytes[0]) && FromUtf8(bytes) == Some('.')
    ensures bytes == [0x2E]
  {
  }

  lemma HexOfDot(text: string)
    requires PercentByte(text) == Some(0x2E)
    ensures IsSingleDot(text[..3])
  {
    var high, low := HexValue(text[1]).value, HexValue(text[2]).value;
    assert high == 2 && low == 14;
    assert text[1] == '2' && (text[2] == 'e' || text[2] == 'E');
    assert text[..3] == ['%', '2', text[2]];
  }

  /** Text that decodes to something beginning with a dot begins with a spelling of it. */
  lemma DecodesToDot(text: string, rest: string) returns (n: nat)
    requires Decoded(Component, text) == Some("." + rest)
    ensures n <= |text| && (n == 1 || n == 3) && IsSingleDot(text[..n])
    ensures Decoded(Component, text[n..]) == Some(rest)
  {
    var whole := "." + rest;
    assert whole[0] == '.' && whole[1..] == rest;
    if PercentByte(text).None? {
      n := 1;
      FirstAndRest(text[0], Decoded(Component, text[1..]), whole);
      assert text[..1] == ".";
    } else {
      var length := SequenceLength(PercentByte(text).value);
      var bytes := PercentBytes(text, length).value;
      FirstAndRest(FromUtf8(bytes).value, Decoded(Component, text[3 * length..]), whole);
      OnlyDotEncodesDot(bytes);
      HexOfDot(text);
      n := 3;
    }
  }

  lemma FirstAndRest(c: char, others: Option<string>, whole: string)
    requires Prepended(c, others) == Some(whole)
    ensures whole != "" && c == whole[0] && others == Some(whole[1..])
  {
  }

  lemma EmptyDecodesEmpty(text: string)
    requires Decoded(Component, text) == Some("")
    ensures text == ""
  {
  }

  lemma OnlyDotsDecodeToDots(text: string)
    requires Decoded(Component, text).Some? && IsDot(Decoded(Component, text).value)
    ensures IsSingleDot(text) || IsDoubleDot(text)
  {
    var rest := if Decoded(Component, text).value == "." then "" else ".";
    assert "." + rest == Decoded(Component, text).value;
    var n := DecodesToDot(text, rest);
    assert text == text[..n] + text[n..];
    if rest == "" {
      EmptyDecodesEmpty(text[n..]);
    } else {
      assert "." + "" == rest;
      var m := DecodesToDot(text[n..], "");
      EmptyDecodesEmpty(text[n..][m..]);
      assert text[n..] == text[n..][..m];
    }
  }

  lemma {:induction false} ResolvedHasNoDots(segments: seq<string>, out: seq<string>)
    requires NoDots(out)
    ensures NoDots(Resolved(segments, out))
  {
    if segments != [] {
      var rest := segments[1..];
      var ending := if rest == [] then [""] else [];
      var shorter := (if out == [] then [] else out[..|out| - 1]) + ending;
      ResolvedHasNoDots(rest,
        if IsDoubleDot(segments[0]) then shorter
        else if IsSingleDot(segments[0]) then out + ending
        else out + [segments[0]]);
    }
  }

  lemma {:induction false} DecodedHaveNoDots(segments: seq<string>)
    requires DecodedAll(segments).Some? && NoDots(segments)
    ensures forall s | s in DecodedAll(segments).value :: !IsDot(s)
  {
    if segments != [] {
      assert segments[0] in segments;
      if IsDot(Decoded(Component, segments[0]).value) {
        OnlyDotsDecodeToDots(segments[0]);
      }
      DecodedHaveNoDots(segments[1..]);
    }
  }

  /** Whatever text an identity was read from, that identity can be printed and read again: the
      dot root ids that would be lost never come out of the parser. */
  lemma ParsedIdentitiesRoundTrip(uri: string)
    requires Parse(uri).Ok?
    ensures Build(Parse(uri).value).Ok? && Parse(Build(Parse(uri).value).value) == Parse(uri)
  {
    var id := Parse(uri).value;
    var path := Cut(uri[|PREFIX|..], '?').0;
    ResolvedHasNoDots(Split(path, '/'), []);
    var segments := Resolved(Split(path, '/'), []);
    DecodedHaveNoDots(segments);
    assert id.rootId in DecodedAll(segments).value;
    RoundTripsUnlessRootIsDot(id);
  }

  // ------------------------------------------------------------------ what the URL parser does to dots

  /** From the first dot segment on, as often as there is one: a double dot takes the name in front
      of it along, or nothing at the top; a single dot goes alone; at the end either leaves an
      empty segment.  Without one everything stays. */
  lemma DotSegmentsExactly(before: seq<string>, name: string, up: string, here: string, after: seq<string>)
    requires NoDots(before) && NoDots([name]) && IsDoubleDot(up) && IsSingleDot(here) && after != []
    ensures Resolved(before, []) == before
    ensures Resolved(before + [name] + ([up] + after), []) == Resolved(before + after, [])
    ensures Resolved([up] + after, []) == Resolved(after, [])
    ensures Resolved(before + ([here] + after), []) == Resolved(before + after, [])
    ensures Resolved(before + [name] + [up], []) == before + [""]
    ensures Resolved([up], []) == [""]
    ensures Resolved(before + [here], []) == before + [""]
  {
    var none: seq<string> := [];
    assert none + before == before && none + (before + [name]) == before + [name];
    assert !IsDoubleDot(here);
    NoDotsStay(before);
    NamesPass(before, after, []);
    NamesPass(before, [here] + after, []);
    NamesPass(before, [here], []);
    NamesPass(before + [name], [up] + after, []);
    NamesPass(before + [name], [up], []);
    DotInside(up, after, before + [name]);
    DotInside(up, after, []);
    DotInside(here, after, before);
    DotAtTheEnd(up, before + [name]);
    DotAtTheEnd(up, []);
    DotAtTheEnd(here, before);
    assert none + [""] == [""] && (before + [name])[..|before|] == before;
    hide Resolved, IsSingleDot, IsDoubleDot, NoDots;
  }

  lemma DotInside(dot: string, after: seq<string>, out: seq<string>)
    requires (IsDoubleDot(dot) || IsSingleDot(dot)) && after != []
    ensures Resolved([dot] + after, out)
            == Resolved(after, if IsDoubleDot(dot) && out != [] then out[..|out| - 1] else out)
  {
    hide IsDoubleDot, IsSingleDot;
    assert ([dot] + after)[1..] == after;
    var none: seq<string> := [];
    assert forall some: seq<string> :: some + none == some;
  }

  lemma DotAtTheEnd(dot: string, out: seq<string>)
    requires IsDoubleDot(dot) || IsSingleDot(dot)
    ensures Resolved([dot], out) == (if IsDoubleDot(dot) && out != [] then out[..|out| - 1] else out) + [""]
  {
    hide IsDoubleDot, IsSingleDot;
    assert [dot][1..] == [];
  }

  // ------------------------------------------------------------------ which identity is read

  lemma {:induction false} CountByKey(fields: seq<(string, string)>, key: string, value: string)
    ensures multiset(fields)[(key, value)] == multiset(GetAll(fields, key))[value]
  {
    if fields != [] {
      CountByKey(fields[1..], key, value);
      assert fields == [fields[0]] + fields[1..];
      var first := if fields[0].0 == key then [fields[0].1] else [];
      assert multiset(fields) == multiset([fields[0]]) + multiset(fields[1..]);
      assert multiset(GetAll(fields, key)) == multiset(first) + multiset(GetAll(fields[1..], key));
    }
  }

  lemma SameValues(fields: seq<(string, string)>, other: seq<(string, string)>, key: string)
    requires multiset(fields) == multiset(other)
    ensures multiset(GetAll(fields, key)) == multiset(GetAll(other, key))
    ensures |GetAll(fields, key)| == |GetAll(other, key)|
  {
    hide GetAll;
    forall value: string
      ensures multiset(GetAll(fields, key))[value] == multiset(GetAll(other, key))[value]
    {
      CountByKey(fields, key, value);
      CountByKey(other, key, value);
    }
    assert |multiset(GetAll(fields, key))| == |GetAll(fields, key)|;
  }

  lemma {:induction false} GetAllEmpty(fields: seq<(string, string)>, key: string)
    ensures GetAll(fields, key) == [] <==> forall f | f in fields :: f.0 != key
  {
    if fields != [] {
      GetAllEmpty(fields[1..], key);
      assert fields == [fields[0]] + fields[1..];
    }
  }

  /** The fields of an accepted query. */
  lemma AcceptedValues(fields: seq<(string, string)>, key: string)
    requires FieldsAccepted(fields)
    ensures |GetAll(fields, key)| <= 1
    ensures key !in ["host", "target", "revision"] ==> GetAll(fields, key) == []
  {
    GetAllEmpty(fields, key);
    hide GetAll;
  }

  lemma FieldsReadAs(segments: seq<string>, fields: seq<(string, string)>, id: Identity, key: string)
    requires Identified(segments, fields) == Ok(id)
    ensures GetAll(fields, key) == GetAll(Fields(id), key)
  {
    FieldValues(id, key);
    AcceptedValues(fields, key);
    hide GetAll, ValidIdentity, Joined, Fields;
    var values := GetAll(fields, key);
    assert |values| == 1 ==> values == [values[0]];
  }

  lemma ReadHasItsParts(segments: seq<string>, fields: seq<(string, string)>, id: Identity)
    requires Identified(segments, fields) == Ok(id)
    ensures ValidIdentity(id) && segments == Segments(id) && multiset(fields) == multiset(Fields(id))
  {
    assert segments[1..] != [];
    SplitOfJoined(segments[1..], '/');
    assert segments == [segments[0]] + segments[1..];
    forall f: (string, string)
      ensures multiset(fields)[f] == multiset(Fields(id))[f]
    {
      CountByKey(fields, f.0, f.1);
      CountByKey(Fields(id), f.0, f.1);
      FieldsReadAs(segments, fields, id, f.0);
    }
  }

  lemma SameFieldsAreAccepted(fields: seq<(string, string)>, id: Identity)
    requires multiset(fields) == multiset(Fields(id))
    ensures FieldsAccepted(fields)
    ensures GetAll(fields, "host") == [id.host] && GetAll(fields, "target") == [id.target]
    ensures GetAll(fields, "revision") == if id.revision.Some? then [id.revision.value] else []
  {
    FieldsAreAccepted(id);
    hide GetAll, Fields;
    forall key: string
      ensures |GetAll(fields, key)| == |GetAll(Fields(id), key)|
      ensures |GetAll(Fields(id), key)| <= 1 ==> GetAll(fields, key) == GetAll(Fields(id), key)
    {
      SameValues(fields, Fields(id), key);
      SameFew(GetAll(fields, key), GetAll(Fields(id), key));
    }
    forall f | f in fields
      ensures f in Fields(id)
    {
      assert f in multiset(fields);
    }
  }

  lemma SameFew(a: seq<string>, b: seq<string>)
    requires multiset(a) == multiset(b)
    ensures |b| <= 1 ==> a == b
  {
    assert |multiset(a)| == |a| && |multiset(b)| == |b|;
    if |b| == 1 {
      assert a == [a[0]] && b == [b[0]];
      assert a[0] in multiset(b);
    }
  }

  lemma PartsAreRead(segments: seq<string>, fields: seq<(string, string)>, id: Identity)
    requires ValidIdentity(id) && segments == Segments(id) && multiset(fields) == multiset(Fields(id))
    ensures Identified(segments, fields) == Ok(id)
  {
    SegmentsOfValid(id);
    SameFieldsAreAccepted(fields, id);
    hide GetAll, FieldsAccepted, ValidIdentity, Fields;
  }

  /** The parts of a URI stand for an identity exactly if it is one that can be printed, the query
      has its fields and no others, in any order, and the path its segments. */
  lemma IdentifiedExactly(segments: seq<string>, fields: seq<(string, string)>, id: Identity)
    ensures Identified(segments, fields) == Ok(id)
            <==> && ValidIdentity(id) && segments == Segments(id)
                 && multiset(fields) == multiset(Fields(id))
  {
    if Identified(segments, fields) == Ok(id) {
      ReadHasItsParts(segments, fields, id);
    }
    if ValidIdentity(id) && segments == Segments(id) && multiset(fields) == multiset(Fields(id)) {
      PartsAreRead(segments, fields, id);
    }
  }
}
