/** The text layers under resource URIs: UTF-8, percent encoding as encodeURIComponent and the
    form-urlencoded serializer do it, and splitting at a separator.  Strings are well-formed
    Unicode; lengths that the source limits are in UTF-16 code units. */
module UriText {
  import opened Wrappers

  type Byte = b: int | 0 <= b < 256

  function Utf16Length(s: string): nat {
    if s == "" then 0 else (if s[0] as int < 0x10000 then 1 else 2) + Utf16Length(s[1..])
  }

  // ------------------------------------------------------------------ UTF-8

  function Utf8(c: char): (bytes: seq<Byte>)
    ensures bytes != [] && |bytes| == SequenceLength(bytes[0])
  {
    var x := c as int;
    if x < 0x80 then [x]
    else if x < 0x800 then [0xC0 + x / 64, 0x80 + x % 64]
    else if x < 0x10000 then [0xE0 + x / 4096, 0x80 + x / 64 % 64, 0x80 + x % 64]
    else [0xF0 + x / 262144, 0x80 + x / 4096 % 64, 0x80 + x / 64 % 64, 0x80 + x % 64]
  }

  /** How many bytes the lead byte announces; 0 for a byte that cannot lead. */
  function SequenceLength(lead: Byte): nat {
    if lead < 0x80 then 1
    else if 0xC0 <= lead < 0xE0 then 2
    else if 0xE0 <= lead < 0xF0 then 3
    else if 0xF0 <= lead < 0xF8 then 4
    else 0
  }

  predicate IsContinuation(b: Byte) {
    0x80 <= b < 0xC0
  }

  /** Strict: no overlong forms, no surrogates, nothing above U+10FFFF. */
  function FromUtf8(bytes: seq<Byte>): Option<char>
    requires bytes != [] && |bytes| == SequenceLength(bytes[0])
  {
    if exists i | 1 <= i < |bytes| :: !IsContinuation(bytes[i]) then None
    else
      var b := bytes;
      var x: int :=
        if |b| == 1 then b[0]
        else if |b| == 2 then (b[0] as int - 0xC0) * 64 + b[1] - 0x80
        else if |b| == 3 then (b[0] as int - 0xE0) * 4096 + (b[1] as int - 0x80) * 64 + b[2] - 0x80
        else (b[0] as int - 0xF0) * 262144 + (b[1] as int - 0x80) * 4096 + (b[2] as int - 0x80) * 64 + b[3] - 0x80;
      var least := if |b| == 1 then 0 else if |b| == 2 then 0x80 else if |b| == 3 then 0x800 else 0x10000;
      if least <= x && (x < 0xD800 || 0xE000 <= x < 0x110000) then Some(x as char) else None
  }

  lemma Utf8RoundTrips(c: char)
    ensures FromUtf8(Utf8(c)) == Some(c)
  {
    var x := c as int;
    assert x == (x / 64) * 64 + x % 64;
    assert x / 64 == (x / 4096) * 64 + x / 64 % 64;
    assert x / 4096 == (x / 262144) * 64 + x / 4096 % 64;
  }

  // ------------------------------------------------------------------ percent encoding

  function HexDigit(n: nat): char
    requires n < 16
  {
    "0123456789ABCDEF"[n]
  }

  function HexValue(c: char): Option<nat> {
    if '0' <= c <= '9' then Some(c as int - '0' as int)
    else if 'A' <= c <= 'F' then Some(c as int - 'A' as int + 10)
    else if 'a' <= c <= 'f' then Some(c as int - 'a' as int + 10)
    else None
  }

  lemma HexRoundTrips(n: nat)
    requires n < 16
    ensures HexValue(HexDigit(n)) == Some(n)
  {
  }

  /** The byte that text begins with in percent form. */
  function PercentByte(text: string): Option<Byte> {
    if |text| < 3 || text[0] != '%' || HexValue(text[1]).None? || HexValue(text[2]).None? then None
    else Some(HexValue(text[1]).value * 16 + HexValue(text[2]).value)
  }

  function PercentForm(b: Byte): (text: string)
    ensures |text| == 3
  {
    ['%', HexDigit(b / 16), HexDigit(b % 16)]
  }

  function Percented(bytes: seq<Byte>): (text: string)
    ensures |text| == 3 * |bytes|
  {
    if bytes == [] then ""
    else PercentForm(bytes[0]) + Percented(bytes[1..])
  }

  /** The n bytes that text begins with in percent form. */
  function PercentBytes(text: string, n: nat): (bytes: Option<seq<Byte>>)
    ensures bytes.Some? ==> |bytes.value| == n && 3 * n <= |text|
    ensures bytes.Some? && n > 0 ==> PercentByte(text) == Some(bytes.value[0])
  {
    if n == 0 then Some([])
    else
      match PercentByte(text)
      case None => None
      case Some(b) =>
        match PercentBytes(text[3..], n - 1)
        case None => None
        case Some(bs) => Some([b] + bs)
  }

  lemma PercentByteRoundTrips(b: Byte, rest: string)
    ensures PercentByte(PercentForm(b) + rest) == Some(b)
  {
    HexRoundTrips(b / 16);
    HexRoundTrips(b % 16);
    hide HexDigit, HexValue;
  }

  lemma OneByteMore(text: string, b: Byte, bytes: seq<Byte>)
    requires PercentByte(text) == Some(b) && |text| >= 3 && PercentBytes(text[3..], |bytes|) == Some(bytes)
    ensures PercentBytes(text, 1 + |bytes|) == Some([b] + bytes)
  {
    hide PercentByte;
  }

  lemma {:induction false} PercentRoundTrips(bytes: seq<Byte>, rest: string)
    ensures PercentBytes(Percented(bytes) + rest, |bytes|) == Some(bytes)
  {
    if bytes != [] {
      var form, tail := PercentForm(bytes[0]), Percented(bytes[1..]) + rest;
      assert Percented(bytes) + rest == form + tail;
      PercentByteRoundTrips(bytes[0], tail);
      PercentRoundTrips(bytes[1..], rest);
      hide *;
      assert (form + tail)[3..] == tail;
      OneByteMore(form + tail, bytes[0], bytes[1..]);
      assert bytes == [bytes[0]] + bytes[1..];
    }
  }

  /** encodeURIComponent and decodeURIComponent, or the form-urlencoded serializer and parser. */
  datatype Coding = Component | Form

  predicate IsAlphanumeric(c: char) {
    'A' <= c <= 'Z' || 'a' <= c <= 'z' || '0' <= c <= '9'
  }

  predicate Kept(coding: Coding, c: char) {
    IsAlphanumeric(c) || c in (if coding.Component? then "-_.!~*'()" else "*-._")
  }

  function EncodedChar(coding: Coding, c: char): string {
    if Kept(coding, c) then [c]
    else if coding.Form? && c == ' ' then "+"
    else Percented(Utf8(c))
  }

  function Encoded(coding: Coding, s: string): string {
    if s == "" then "" else EncodedChar(coding, s[0]) + Encoded(coding, s[1..])
  }

  /** None: malformed, which decodeURIComponent refuses. */
  function Decoded(coding: Coding, text: string): Option<string> {
    if text == "" then Some("")
    else
      match PercentByte(text)
      case None =>
        if coding.Component? && text[0] == '%' then None
        else Prepended(if coding.Form? && text[0] == '+' then ' ' else text[0], Decoded(coding, text[1..]))
      case Some(lead) =>
        var n := SequenceLength(lead);
        if n == 0 then None
        else
          var bytes := PercentBytes(text, n);
          if bytes.None? || FromUtf8(bytes.value).None? then None
          else Prepended(FromUtf8(bytes.value).value, Decoded(coding, text[3 * n..]))
  }

  function Prepended(c: char, s: Option<string>): Option<string> {
    match s
    case None => None
    case Some(rest) => Some([c] + rest)
  }

  lemma DecodesChar(coding: Coding, c: char, rest: string)
    ensures Decoded(coding, EncodedChar(coding, c) + rest) == Prepended(c, Decoded(coding, rest))
  {
    var text := EncodedChar(coding, c) + rest;
    if Kept(coding, c) || (coding.Form? && c == ' ') {
      assert text[1..] == rest && text[0] != '%' && PercentByte(text).None?;
    } else {
      var bytes := Utf8(c);
      PercentRoundTrips(bytes, rest);
      Utf8RoundTrips(c);
      assert text[3 * |bytes|..] == rest;
      assert PercentByte(text) == Some(bytes[0]);
    }
  }

  lemma {:induction false} CodingRoundTrips(coding: Coding, s: string)
    ensures Decoded(coding, Encoded(coding, s)) == Some(s)
  {
    if s != "" {
      DecodesChar(coding, s[0], Encoded(coding, s[1..]));
      CodingRoundTrips(coding, s[1..]);
      assert s == [s[0]] + s[1..];
    }
  }

  /** What encoded text consists of; no delimiter of a URI is among it. */
  predicate Written(coding: Coding, c: char) {
    Kept(coding, c) || c == '%' || (coding.Form? && c == '+')
  }

  predicate AllWritten(coding: Coding, text: string) {
    forall i | 0 <= i < |text| :: Written(coding, text[i])
  }

  lemma {:induction false} PercentedIsWritten(coding: Coding, bytes: seq<Byte>)
    ensures AllWritten(coding, Percented(bytes))
  {
    if bytes != [] {
      PercentedIsWritten(coding, bytes[1..]);
      assert IsAlphanumeric(HexDigit(bytes[0] / 16)) && IsAlphanumeric(HexDigit(bytes[0] % 16));
    }
  }

  lemma {:induction false} EncodedIsWritten(coding: Coding, s: string)
    ensures AllWritten(coding, Encoded(coding, s))
  {
    if s != "" {
      PercentedIsWritten(coding, Utf8(s[0]));
      EncodedIsWritten(coding, s[1..]);
    }
  }

  lemma {:induction false} KeptTextIsItsOwnCode(coding: Coding, s: string)
    requires forall i | 0 <= i < |s| :: Kept(coding, s[i])
    ensures Encoded(coding, s) == s
  {
    if s != "" {
      KeptTextIsItsOwnCode(coding, s[1..]);
      assert s == [s[0]] + s[1..];
    }
  }

  // ------------------------------------------------------------------ splitting

  /** One more character in front of text that splits into parts. */
  function Pushed(c: char, sep: char, parts: seq<string>): (more: seq<string>)
    requires parts != []
    ensures more != []
  {
    if c == sep then [""] + parts else [[c] + parts[0]] + parts[1..]
  }

  function Split(s: string, sep: char): (parts: seq<string>)
    ensures parts != []
  {
    if s == "" then [""] else Pushed(s[0], sep, Split(s[1..], sep))
  }

  function Joined(parts: seq<string>, sep: char): string {
    if |parts| == 0 then "" else if |parts| == 1 then parts[0] else parts[0] + [sep] + Joined(parts[1..], sep)
  }

  lemma PushedOnFirst(c: char, sep: char, parts: seq<string>, more: seq<string>)
    requires parts != []
    ensures Pushed(c, sep, parts + more) == Pushed(c, sep, parts) + more
  {
    assert (parts + more)[1..] == parts[1..] + more;
  }

  lemma {:induction false} SplitOfConcat(a: string, b: string, sep: char)
    ensures Split(a + [sep] + b, sep) == Split(a, sep) + Split(b, sep)
  {
    var s := a + [sep] + b;
    if a == "" {
      assert s[1..] == b;
    } else {
      SplitOfConcat(a[1..], b, sep);
      assert s[0] == a[0] && s[1..] == a[1..] + [sep] + b;
      PushedOnFirst(a[0], sep, Split(a[1..], sep), Split(b, sep));
      hide Pushed;
    }
  }

  lemma {:induction false} SplitOfPart(part: string, sep: char)
    requires sep !in part
    ensures Split(part, sep) == [part]
  {
    if part != "" {
      SplitOfPart(part[1..], sep);
      assert part == [part[0]] + part[1..];
    }
  }

  lemma {:induction false} SplitOfJoined(parts: seq<string>, sep: char)
    requires parts != [] && forall p | p in parts :: sep !in p
    ensures Split(Joined(parts, sep), sep) == parts
  {
    assert parts[0] in parts;
    if |parts| == 1 {
      SplitOfPart(parts[0], sep);
      assert parts == [parts[0]];
    } else {
      SplitOfJoined(parts[1..], sep);
      SplitOfPart(parts[0], sep);
      SplitOfConcat(parts[0], Joined(parts[1..], sep), sep);
      assert parts == [parts[0]] + parts[1..];
    }
  }

  lemma {:induction false} JoinedOfSplit(s: string, sep: char)
    ensures Joined(Split(s, sep), sep) == s
    ensures forall p | p in Split(s, sep) :: sep !in p
  {
    if s != "" {
      JoinedOfSplit(s[1..], sep);
      var rest := Split(s[1..], sep);
      assert s == [s[0]] + s[1..];
      if s[0] == sep {
        assert ([""] + rest)[1..] == rest;
        assert "" + [sep] + Joined(rest, sep) == [sep] + Joined(rest, sep);
      } else {
        var first := [s[0]] + rest[0];
        assert ([first] + rest[1..])[1..] == rest[1..];
        assert rest[0] in rest;
        if |rest| > 1 {
          assert first + [sep] + Joined(rest[1..], sep) == [s[0]] + (rest[0] + [sep] + Joined(rest[1..], sep));
        }
      }
    }
  }

  /** What is before the first sep and what is after it. */
  function Cut(s: string, sep: char): (string, Option<string>) {
    if s == "" then ("", None)
    else if s[0] == sep then ("", Some(s[1..]))
    else
      var (before, after) := Cut(s[1..], sep);
      ([s[0]] + before, after)
  }

  lemma {:induction false} CutAt(before: string, after: string, sep: char)
    requires sep !in before
    ensures Cut(before + [sep] + after, sep) == (before, Some(after))
  {
    var s := before + [sep] + after;
    if before == "" {
      assert s[1..] == after;
    } else {
      assert s[1..] == before[1..] + [sep] + after;
      CutAt(before[1..], after, sep);
      assert before == [before[0]] + before[1..];
    }
  }

  // ------------------------------------------------------------------ what is written

  /** UTF-8 by its ranges, and upper-case percent forms (RFC 3629 section 3, RFC 3986 section 2.1). */
  lemma KnownEncodings()
    ensures Utf8('A') == [0x41] && Utf8('\U{00E9}') == [0xC3, 0xA9] && Utf8('\U{20AC}') == [0xE2, 0x82, 0xAC]
    ensures Utf8('\U{1F600}') == [0xF0, 0x9F, 0x98, 0x80]
    ensures PercentForm(0x2F) == "%2F" && PercentForm(0xA9) == "%A9" && PercentForm(0x00) == "%00"
  {
  }

  /** encodeURIComponent keeps letters, digits and nine marks; the form serializer letters, digits
      and four, and writes a space as a plus. */
  lemma KeptExactly(c: char)
    ensures EncodedChar(Component, c) == [c]
            <==> 'A' <= c <= 'Z' || 'a' <= c <= 'z' || '0' <= c <= '9'
                 || c == '-' || c == '_' || c == '.' || c == '!' || c == '~' || c == '*' || c == '\''
                 || c == '(' || c == ')'
    ensures EncodedChar(Form, c) == [c]
            <==> 'A' <= c <= 'Z' || 'a' <= c <= 'z' || '0' <= c <= '9' || c == '*' || c == '-' || c == '.' || c == '_'
    ensures EncodedChar(Form, ' ') == "+"
    ensures forall coding :: EncodedChar(coding, c) != [c] && !(coding.Form? && c == ' ') ==>
              EncodedChar(coding, c) == Percented(Utf8(c))
  {
    assert |Percented(Utf8(c))| >= 3;
  }
}
