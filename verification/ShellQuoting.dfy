/** Printing argument vectors as shell text, and what a POSIX shell reads back from it. */
module ShellQuoting {
  import opened Wrappers

  // ------------------------------------------------------------------ the shell's reading

  /** Unquoted, these begin an operator, an expansion, a pattern or a new line. */
  predicate IsSpecial(c: char) {
    c in "|&;<>()$`*?[\n"
  }

  /** Unquoted and first in a word, these begin a comment or a tilde prefix. */
  predicate IsSpecialFirst(c: char) {
    c in "#~"
  }

  predicate IsBlank(c: char) {
    c == ' ' || c == '\t'
  }

  /** Between words, or inside one: bare, in single or in double quotes. */
  datatype Mode = Between | Bare(word: string) | Single(word: string) | Double(word: string)

  function WordSoFar(mode: Mode): string {
    if mode.Between? then "" else mode.word
  }

  /** Token recognition with quote removal, after POSIX.1-2017 Shell Command Language sections
      2.2.1 to 2.2.3 and 2.3, and no more than that: what a shell then makes of the tokens, as an
      assignment, a reserved word or an alias, is not looked at.  None: the text does not consist
      of literal words alone. */
  function Scan(text: string, mode: Mode, words: seq<string>): Option<seq<string>> {
    if text == "" then
      match mode
      case Between => Some(words)
      case Bare(word) => Some(words + [word])
      case _ => None
    else
      var c, rest := text[0], text[1..];
      match mode
      case Single(word) =>
        if c == '\'' then Scan(rest, Bare(word), words) else Scan(rest, Single(word + [c]), words)
      case Double(word) =>
        if c == '\"' then Scan(rest, Bare(word), words)
        else if c == '$' || c == '`' then None
        else if c == '\\' && rest != "" && rest[0] == '\n' then Scan(rest[1..], mode, words)
        else if c == '\\' && rest != "" && rest[0] in "$`\"\\" then Scan(rest[1..], Double(word + [rest[0]]), words)
        else Scan(rest, Double(word + [c]), words)
      case _ =>
        var word := WordSoFar(mode);
        if IsBlank(c) then Scan(rest, Between, if mode.Bare? then words + [word] else words)
        else if c == '\'' then Scan(rest, Single(word), words)
        else if c == '\"' then Scan(rest, Double(word), words)
        else if c == '\\' then
          if rest == "" then None
          else if rest[0] == '\n' then Scan(rest[1..], mode, words)
          else Scan(rest[1..], Bare(word + [rest[0]]), words)
        else if IsSpecial(c) || (mode.Between? && IsSpecialFirst(c)) then None
        else Scan(rest, Bare(word + [c]), words)
  }

  function Words(text: string): Option<seq<string>> {
    Scan(text, Between, [])
  }

  // ------------------------------------------------------------------ the printers

  const APOSTROPHE := "'\"'\"'"

  /** value with every apostrophe replaced by APOSTROPHE. */
  function Escaped(value: string): string {
    if value == "" then "" else (if value[0] == '\'' then APOSTROPHE else [value[0]]) + Escaped(value[1..])
  }

  function Quoted(value: string): string {
    "'" + Escaped(value) + "'"
  }

  predicate NulFree(value: string) {
    '\0' !in value
  }

  datatype QuotingError = CommandDenied

  function QuotePosix(value: string): Result<string, QuotingError> {
    if NulFree(value) then Ok(Quoted(value)) else Err(CommandDenied)
  }

  function QuoteAll(values: seq<string>): Result<seq<string>, QuotingError> {
    if values == [] then Ok([])
    else
      var first :- QuotePosix(values[0]);
      var others :- QuoteAll(values[1..]);
      Ok([first] + others)
  }

  function Joined(parts: seq<string>): string {
    if |parts| == 0 then "" else if |parts| == 1 then parts[0] else parts[0] + " " + Joined(parts[1..])
  }

  /** wrapper is the fixed script that changes to cwd and runs its arguments. */
  function BuildRemoteCommand(wrapper: string, cwd: string, argv: seq<string>): Result<string, QuotingError> {
    if argv == [] || argv[0] == "" then Err(CommandDenied)
    else
      var script :- QuotePosix(wrapper);
      var directory :- QuotePosix(cwd);
      var arguments :- QuoteAll(argv);
      Ok(Joined(["sh", "-c", script, "codex-bridge", directory] + arguments))
  }

  /** What needs no quotes on display. */
  predicate IsPlain(c: char) {
    'A' <= c <= 'Z' || 'a' <= c <= 'z' || '0' <= c <= '9' || c in "_@%+=:,./-"
  }

  predicate AllPlain(value: string) {
    value != "" && forall i | 0 <= i < |value| :: IsPlain(value[i])
  }

  function QuoteForDisplay(value: string): string {
    if AllPlain(value) then value else Quoted(value)
  }

  function FormatRemoteCommand(argv: seq<string>): string {
    Joined(seq(|argv|, i requires 0 <= i < |argv| => QuoteForDisplay(argv[i])))
  }

  // ------------------------------------------------------------------ reading back

  lemma {:induction false} ScanEscaped(value: string, rest: string, word: string, words: seq<string>)
    ensures Scan(Escaped(value) + "'" + rest, Single(word), words) == Scan(rest, Bare(word + value), words)
  {
    var text := Escaped(value) + "'" + rest;
    if value == "" {
      assert text == "'" + rest && text[1..] == rest;
      assert word + value == word;
    } else {
      var tail := Escaped(value[1..]) + "'" + rest;
      ScanEscaped(value[1..], rest, word + [value[0]], words);
      assert word + value == (word + [value[0]]) + value[1..];
      if value[0] == '\'' {
        assert text == APOSTROPHE + tail;
        ScanApostrophe(tail, word, words);
      } else {
        assert text == [value[0]] + tail && text[1..] == tail;
      }
    }
  }

  /** Leaving the single quotes, one apostrophe in double quotes, and in again. */
  lemma ScanApostrophe(tail: string, word: string, words: seq<string>)
    ensures Scan(APOSTROPHE + tail, Single(word), words) == Scan(tail, Single(word + "'"), words)
  {
    var t1, t2, t3, t4 := "\"'\"'" + tail, "'\"'" + tail, "\"'" + tail, "'" + tail;
    assert (APOSTROPHE + tail)[1..] == t1 && t1[1..] == t2 && t2[1..] == t3 && t3[1..] == t4 && t4[1..] == tail;
    calc {
      Scan(APOSTROPHE + tail, Single(word), words);
      Scan(t1, Bare(word), words);
      Scan(t2, Double(word), words);
      Scan(t3, Double(word + "'"), words);
      Scan(t4, Bare(word + "'"), words);
      Scan(tail, Single(word + "'"), words);
    }
  }

  lemma ScanQuoted(value: string, rest: string, words: seq<string>)
    ensures Scan(Quoted(value) + rest, Between, words) == Scan(rest, Bare(value), words)
  {
    var text := Quoted(value) + rest;
    assert text[1..] == Escaped(value) + "'" + rest;
    ScanEscaped(value, rest, "", words);
    assert "" + value == value;
  }

  lemma PlainMeansItself(c: char)
    requires IsPlain(c)
    ensures !IsBlank(c) && !IsSpecial(c) && !IsSpecialFirst(c) && c != '\'' && c != '\"' && c != '\\'
  {
  }

  lemma ScanPlainChar(text: string, mode: Mode, words: seq<string>)
    requires text != "" && IsPlain(text[0]) && (mode.Between? || mode.Bare?)
    ensures Scan(text, mode, words) == Scan(text[1..], Bare(WordSoFar(mode) + [text[0]]), words)
  {
    PlainMeansItself(text[0]);
    hide IsPlain, IsBlank, IsSpecial, IsSpecialFirst;
  }

  lemma {:induction false} ScanPlain(value: string, rest: string, mode: Mode, words: seq<string>)
    requires AllPlain(value) && (mode.Between? || mode.Bare?)
    ensures Scan(value + rest, mode, words) == Scan(rest, Bare(WordSoFar(mode) + value), words)
  {
    var text, word := value + rest, WordSoFar(mode);
    assert text[0] == value[0] && text[1..] == value[1..] + rest;
    ScanPlainChar(text, mode, words);
    hide Scan;
    if |value| == 1 {
      assert value[1..] + rest == rest;
      assert word + [value[0]] == word + value;
    } else {
      ScanPlain(value[1..], rest, Bare(word + [value[0]]), words);
      assert (word + [value[0]]) + value[1..] == word + value;
    }
  }

  /** part is shell text for the word value. */
  ghost predicate Spells(part: string, value: string) {
    forall rest: string, words: seq<string> ::
      Scan(part + rest, Between, words) == Scan(rest, Bare(value), words)
  }

  lemma QuotedSpells(value: string)
    ensures Spells(Quoted(value), value)
  {
    forall rest: string, words: seq<string>
      ensures Scan(Quoted(value) + rest, Between, words) == Scan(rest, Bare(value), words)
    {
      ScanQuoted(value, rest, words);
    }
  }

  lemma PlainSpells(value: string)
    requires AllPlain(value)
    ensures Spells(value, value)
  {
    forall rest: string, words: seq<string>
      ensures Scan(value + rest, Between, words) == Scan(rest, Bare(value), words)
    {
      ScanPlain(value, rest, Between, words);
      assert "" + value == value;
    }
  }

  lemma {:induction false} ScanJoined(parts: seq<string>, values: seq<string>, words: seq<string>)
    requires |parts| == |values| && forall i | 0 <= i < |parts| :: Spells(parts[i], values[i])
    ensures Scan(Joined(parts), Between, words) == Some(words + values)
  {
    if parts == [] {
      assert words + values == words;
    } else {
      var rest := if |parts| == 1 then "" else " " + Joined(parts[1..]);
      assert Joined(parts) == parts[0] + rest;
      assert Spells(parts[0], values[0]);
      assert Scan(parts[0] + rest, Between, words) == Scan(rest, Bare(values[0]), words);
      if |parts| == 1 {
        assert words + values == words + [values[0]];
      } else {
        assert rest[1..] == Joined(parts[1..]);
        ScanJoined(parts[1..], values[1..], words + [values[0]]);
        assert (words + [values[0]]) + values[1..] == words + values;
      }
    }
  }

  lemma {:induction false} QuoteAllSpells(values: seq<string>)
    ensures QuoteAll(values).Ok? <==> forall v | v in values :: NulFree(v)
    ensures QuoteAll(values).Ok? ==>
              && |QuoteAll(values).value| == |values|
              && forall i | 0 <= i < |values| :: Spells(QuoteAll(values).value[i], values[i])
  {
    if values != [] {
      QuoteAllSpells(values[1..]);
      QuotedSpells(values[0]);
      assert values == [values[0]] + values[1..];
    }
  }

  /** The remote shell sees exactly the wrapper, the directory and the arguments, whatever is in
      them; the only inputs refused are an empty command and text with a NUL in it. */
  lemma RemoteCommandRoundTrips(wrapper: string, cwd: string, argv: seq<string>)
    requires NulFree(wrapper)
    ensures var built := BuildRemoteCommand(wrapper, cwd, argv);
      && (built.Ok? <==> argv != [] && argv[0] != "" && NulFree(cwd) && forall a | a in argv :: NulFree(a))
      && (built.Ok? ==> Words(built.value) == Some(["sh", "-c", wrapper, "codex-bridge", cwd] + argv))
  {
    QuoteAllSpells(argv);
    var built := BuildRemoteCommand(wrapper, cwd, argv);
    if built.Ok? {
      var parts := ["sh", "-c", Quoted(wrapper), "codex-bridge", Quoted(cwd)] + QuoteAll(argv).value;
      PlainSpells("sh");
      PlainSpells("-c");
      PlainSpells("codex-bridge");
      QuotedSpells(wrapper);
      QuotedSpells(cwd);
      var values := ["sh", "-c", wrapper, "codex-bridge", cwd] + argv;
      ScanJoined(parts, values, []);
      assert [] + values == values;
    }
  }

  /** The displayed command reads back as the argument vector, with and without the fast path. */
  lemma DisplayedCommandRoundTrips(argv: seq<string>)
    ensures Words(FormatRemoteCommand(argv)) == Some(argv)
  {
    var parts := seq(|argv|, i requires 0 <= i < |argv| => QuoteForDisplay(argv[i]));
    forall i | 0 <= i < |parts|
      ensures Spells(parts[i], argv[i])
    {
      if AllPlain(argv[i]) {
        PlainSpells(argv[i]);
      } else {
        QuotedSpells(argv[i]);
      }
    }
    ScanJoined(parts, argv, []);
    assert [] + argv == argv;
  }

  // ------------------------------------------------------------------ the shell's rules

  /** Section 2.2.2: between single quotes every character stands for itself. */
  lemma {:induction false} SingleQuotesAreLiteral(value: string, rest: string, word: string, words: seq<string>)
    requires '\'' !in value
    ensures Scan(value + "'" + rest, Single(word), words) == Scan(rest, Bare(word + value), words)
  {
    var text := value + "'" + rest;
    if value == "" {
      assert text[1..] == rest && word + value == word;
    } else {
      assert text[0] == value[0] && text[0] in value && text[1..] == value[1..] + "'" + rest;
      SingleQuotesAreLiteral(value[1..], rest, word + [value[0]], words);
      assert word + value == (word + [value[0]]) + value[1..];
    }
  }

  /** Section 2.2.3: between double quotes too, but for the four characters with a meaning there. */
  lemma {:induction false} DoubleQuotesAreLiteral(value: string, rest: string, word: string, words: seq<string>)
    requires forall c | c in value :: c !in "$`\"\\"
    ensures Scan(value + "\"" + rest, Double(word), words) == Scan(rest, Bare(word + value), words)
  {
    var text := value + "\"" + rest;
    if value == "" {
      assert text[1..] == rest && word + value == word;
    } else {
      assert text[0] == value[0] && text[0] in value && text[1..] == value[1..] + "\"" + rest;
      DoubleQuotesAreLiteral(value[1..], rest, word + [value[0]], words);
      assert word + value == (word + [value[0]]) + value[1..];
    }
  }

  /** Sections 2.2.1 and 2.3: a backslash keeps the next character, a blank ends a word, a quote
      opens one, and what is special is not taken literally. */
  lemma BareCharactersExactly(c: char, rest: string, word: string, words: seq<string>)
    ensures c != '\n' ==> Scan("\\" + [c] + rest, Bare(word), words) == Scan(rest, Bare(word + [c]), words)
    ensures c == ' ' || c == '\t' ==> Scan([c] + rest, Bare(word), words) == Scan(rest, Between, words + [word])
    ensures c == ' ' || c == '\t' ==> Scan([c] + rest, Between, words) == Scan(rest, Between, words)
    ensures Scan("'" + rest, Bare(word), words) == Scan(rest, Single(word), words)
    ensures Scan("\"" + rest, Bare(word), words) == Scan(rest, Double(word), words)
    ensures c in "|&;<>()$`*?[\n" ==> Scan([c] + rest, Bare(word), words).None?
    ensures Scan("", Bare(word), words) == Some(words + [word]) && Scan("", Single(word), words).None?
  {
    var escaped := "\\" + [c] + rest;
    assert escaped[1..] == [c] + rest && escaped[1..][1..] == rest;
    assert ([c] + rest)[1..] == rest && ("'" + rest)[1..] == rest && ("\"" + rest)[1..] == rest;
  }
}
