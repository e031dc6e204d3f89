/** Exact-text patches of workspace files: each replacement must name its place unambiguously. */
module WorkspacePatch {
  import opened Wrappers

  type Byte = b: int | 0 <= b < 256

  /** A UTF-16 code unit; positions and lengths count these. */
  type Unit = u: int | 0 <= u < 65536

  type Text = seq<Unit>

  /** The UTF-8 decoder, which refuses malformed input, and the encoder. */
  datatype Codec = Codec(decode: seq<Byte> -> Option<Text>, encode: Text -> seq<Byte>)

  datatype Replacement = Replacement(oldText: Text, newText: Text)

  datatype PatchError = ProtocolMismatch | CommandDenied | NotFound | Ambiguous

  const MAX_WORKSPACE_PATCH_REPLACEMENTS := 64

  predicate OccursAt(text: Text, needle: Text, i: nat) {
    i + |needle| <= |text| && text[i..i + |needle|] == needle
  }

  /** String.prototype.indexOf: the first occurrence that starts at from or later. */
  function IndexOf(text: Text, needle: Text, from: nat): (at: Option<nat>)
    ensures at.Some? ==> from <= at.value && OccursAt(text, needle, at.value)
    ensures forall i: nat | from <= i && OccursAt(text, needle, i) :: at.Some? && at.value <= i
    decreases |text| - from
  {
    if OccursAt(text, needle, from) then Some(from)
    else if from >= |text| then None
    else IndexOf(text, needle, from + 1)
  }

  function Spliced(text: Text, at: nat, r: Replacement): Text
    requires at + |r.oldText| <= |text|
  {
    text[..at] + r.newText + text[at + |r.oldText|..]
  }

  function Replace(text: Text, r: Replacement): Result<Text, PatchError> {
    if r.oldText == [] then Err(ProtocolMismatch)
    else
      match IndexOf(text, r.oldText, 0)
      case None => Err(NotFound)
      case Some(first) =>
        if IndexOf(text, r.oldText, first + |r.oldText|).Some? then Err(Ambiguous)
        else Ok(Spliced(text, first, r))
  }

  function ReplaceAll(text: Text, replacements: seq<Replacement>): Result<Text, PatchError> {
    if replacements == [] then Ok(text)
    else
      var before :- ReplaceAll(text, replacements[..|replacements| - 1]);
      Replace(before, replacements[|replacements| - 1])
  }

  function Applied(codec: Codec, content: seq<Byte>, replacements: seq<Replacement>): Result<seq<Byte>, PatchError> {
    if !(1 <= |replacements| <= MAX_WORKSPACE_PATCH_REPLACEMENTS) then Err(ProtocolMismatch)
    else
      match codec.decode(content)
      case None => Err(CommandDenied)
      case Some(text) =>
        var final :- ReplaceAll(text, replacements);
        Ok(codec.encode(final))
  }

  lemma NothingReplaced(text: Text, replacements: seq<Replacement>)
    requires replacements == []
    ensures ReplaceAll(text, replacements) == Ok(text)
  {
  }

  lemma {:induction false} OneMoreReplacement(text: Text, replacements: seq<Replacement>, k: nat)
    requires k < |replacements| && ReplaceAll(text, replacements[..k]).Ok?
    ensures var here := Replace(ReplaceAll(text, replacements[..k]).value, replacements[k]);
      && ReplaceAll(text, replacements[..k + 1]) == here
      && (here.Err? ==> ReplaceAll(text, replacements) == here)
    decreases |replacements|
  {
    assert replacements[..k + 1][..k] == replacements[..k];
    if k + 1 == |replacements| {
      assert replacements[..k + 1] == replacements;
    } else {
      var shorter := replacements[..|replacements| - 1];
      assert shorter[..k] == replacements[..k] && shorter[..k + 1] == replacements[..k + 1];
      OneMoreReplacement(text, shorter, k);
    }
  }

  // ------------------------------------------------------------------ when a patch applies

  ghost predicate Occurs(text: Text, needle: Text) {
    exists i: nat :: OccursAt(text, needle, i)
  }

  ghost predicate OccursTwiceApart(text: Text, needle: Text) {
    exists i: nat, j: nat :: OccursAt(text, needle, i) && OccursAt(text, needle, j) && i + |needle| <= j
  }

  predicate Leftmost(text: Text, needle: Text, at: nat) {
    OccursAt(text, needle, at) && forall i | 0 <= i < at :: !OccursAt(text, needle, i)
  }

  /** A replacement goes through exactly when its text occurs and no two occurrences lie apart;
      occurrences that overlap the leftmost one are accepted, and it is the leftmost that goes. */
  lemma ReplaceExactly(text: Text, r: Replacement)
    requires r.oldText != []
    ensures Replace(text, r).Ok? <==> Occurs(text, r.oldText) && !OccursTwiceApart(text, r.oldText)
    ensures Replace(text, r) == Err(NotFound) <==> !Occurs(text, r.oldText)
    ensures Replace(text, r) == Err(Ambiguous) <==> OccursTwiceApart(text, r.oldText)
    ensures Replace(text, r).Ok? ==>
              exists at: nat :: Leftmost(text, r.oldText, at) && Replace(text, r).value == Spliced(text, at, r)
  {
    var first := IndexOf(text, r.oldText, 0);
    if first.Some? {
      var second := IndexOf(text, r.oldText, first.value + |r.oldText|);
      if OccursTwiceApart(text, r.oldText) {
        var i: nat, j: nat :| OccursAt(text, r.oldText, i) && OccursAt(text, r.oldText, j) && i + |r.oldText| <= j;
        assert first.value <= i;
      }
      assert Leftmost(text, r.oldText, first.value);
    }
  }

  /** What one replacement may do. */
  ghost predicate Steps(text: Text, r: Replacement, next: Text) {
    && r.oldText != [] && !OccursTwiceApart(text, r.oldText)
    && exists at: nat :: Leftmost(text, r.oldText, at) && next == Spliced(text, at, r)
  }

  lemma StepsExactly(text: Text, r: Replacement, next: Text)
    ensures Steps(text, r, next) <==> Replace(text, r) == Ok(next)
    ensures Steps(text, r, next) ==> |next| == |text| + |r.newText| - |r.oldText|
  {
    if r.oldText != [] {
      ReplaceExactly(text, r);
      if Steps(text, r, next) {
        var at: nat :| Leftmost(text, r.oldText, at) && next == Spliced(text, at, r);
        var at': nat :| Leftmost(text, r.oldText, at') && Replace(text, r).value == Spliced(text, at', r);
        assert at == at';
      }
    }
  }

  /** The texts a patch goes through, one more than there are replacements. */
  ghost predicate Goes(texts: seq<Text>, replacements: seq<Replacement>) {
    && |texts| == |replacements| + 1
    && forall k | 0 <= k < |replacements| :: Steps(texts[k], replacements[k], texts[k + 1])
  }

  function LengthChange(replacements: seq<Replacement>): int {
    if replacements == [] then 0
    else
      var last := replacements[|replacements| - 1];
      LengthChange(replacements[..|replacements| - 1]) + |last.newText| - |last.oldText|
  }

  lemma {:induction false} GoingGivesIt(texts: seq<Text>, replacements: seq<Replacement>)
    requires Goes(texts, replacements)
    ensures ReplaceAll(texts[0], replacements) == Ok(texts[|replacements|])
    ensures |texts[|replacements|]| == |texts[0]| + LengthChange(replacements)
    decreases |replacements|
  {
    if replacements != [] {
      var last := |replacements| - 1;
      GoingGivesIt(texts[..|replacements|], replacements[..last]);
      StepsExactly(texts[last], replacements[last], texts[last + 1]);
    }
  }

  lemma {:induction false} SuccessGoes(text: Text, replacements: seq<Replacement>) returns (texts: seq<Text>)
    requires ReplaceAll(text, replacements).Ok?
    ensures Goes(texts, replacements) && texts[0] == text
    decreases |replacements|
  {
    texts := [text];
    if replacements != [] {
      var last := |replacements| - 1;
      texts := SuccessGoes(text, replacements[..last]);
      GoingGivesIt(texts, replacements[..last]);
      var next := ReplaceAll(text, replacements).value;
      StepsExactly(texts[last], replacements[last], next);
      GoesLonger(texts, replacements, next);
      texts := texts + [next];
    }
  }

  lemma GoesLonger(texts: seq<Text>, replacements: seq<Replacement>, next: Text)
    requires replacements != [] && Goes(texts, replacements[..|replacements| - 1])
    requires Steps(texts[|replacements| - 1], replacements[|replacements| - 1], next)
    ensures Goes(texts + [next], replacements)
  {
    hide Steps;
    var last, longer := |replacements| - 1, texts + [next];
    forall k | 0 <= k < |replacements|
      ensures Steps(longer[k], replacements[k], longer[k + 1])
    {
      assert k < last ==> Steps(texts[k], replacements[..last][k], texts[k + 1]);
    }
  }

  /** A patch applies exactly if every replacement does on the text the ones before it leave; its
      result is the last of those texts, longer by what the replacements say. */
  lemma PatchExactly(text: Text, replacements: seq<Replacement>)
    ensures ReplaceAll(text, replacements).Ok? <==>
              exists texts :: Goes(texts, replacements) && texts[0] == text
    ensures forall texts | Goes(texts, replacements) && texts[0] == text ::
              ReplaceAll(text, replacements) == Ok(texts[|replacements|])
    ensures ReplaceAll(text, replacements).Ok? ==>
              |ReplaceAll(text, replacements).value| == |text| + LengthChange(replacements)
  {
    hide Steps, Replace, ReplaceAll, LengthChange;
    forall texts | Goes(texts, replacements) && texts[0] == text
      ensures ReplaceAll(text, replacements) == Ok(texts[|replacements|])
    {
      GoingGivesIt(texts, replacements);
    }
    if ReplaceAll(text, replacements).Ok? {
      var texts := SuccessGoes(text, replacements);
      GoingGivesIt(texts, replacements);
    }
  }

  // ------------------------------------------------------------------ the whole call

  /** The replacements before k apply and lead to texts; replacement k does not apply, for this reason. */
  ghost predicate FailsAt(texts: seq<Text>, replacements: seq<Replacement>, k: nat, error: PatchError) {
    && k < |replacements| && Goes(texts, replacements[..k])
    && var oldText := replacements[k].oldText;
    match error
    case ProtocolMismatch => oldText == []
    case NotFound => oldText != [] && !Occurs(texts[k], oldText)
    case Ambiguous => oldText != [] && OccursTwiceApart(texts[k], oldText)
    case CommandDenied => false
  }

  ghost predicate Fails(text: Text, replacements: seq<Replacement>, error: PatchError) {
    exists texts, k: nat :: FailsAt(texts, replacements, k, error) && texts[0] == text
  }

  lemma {:induction false} FailureShows(text: Text, replacements: seq<Replacement>)
    requires ReplaceAll(text, replacements).Err?
    ensures Fails(text, replacements, ReplaceAll(text, replacements).error)
    decreases |replacements|
  {
    var last := |replacements| - 1;
    var error := ReplaceAll(text, replacements).error;
    if ReplaceAll(text, replacements[..last]).Err? {
      FailureShows(text, replacements[..last]);
      var texts, k: nat :| FailsAt(texts, replacements[..last], k, error) && texts[0] == text;
      assert replacements[..last][..k] == replacements[..k];
      assert FailsAt(texts, replacements, k, error);
    } else {
      var texts := SuccessGoes(text, replacements[..last]);
      GoingGivesIt(texts, replacements[..last]);
      if replacements[last].oldText != [] {
        ReplaceExactly(texts[last], replacements[last]);
      }
      assert FailsAt(texts, replacements, last, error);
    }
  }

  lemma {:induction false} ShownFailureIsIt(
    texts: seq<Text>, replacements: seq<Replacement>, k: nat, error: PatchError)
    requires FailsAt(texts, replacements, k, error)
    ensures ReplaceAll(texts[0], replacements) == Err(error)
    decreases |replacements|
  {
    var last := |replacements| - 1;
    if k < last {
      assert replacements[..last][..k] == replacements[..k];
      ShownFailureIsIt(texts, replacements[..last], k, error);
    } else {
      GoingGivesIt(texts, replacements[..last]);
      if replacements[last].oldText != [] {
        ReplaceExactly(texts[last], replacements[last]);
      }
    }
  }

  predicate CountAccepted(replacements: seq<Replacement>) {
    1 <= |replacements| <= 64
  }

  /** The call, told without the functions above: it gives the bytes of the last of the texts that
      the replacements lead through, and otherwise the first reason that stops it. */
  ghost predicate AppliesAs(
    codec: Codec, content: seq<Byte>, replacements: seq<Replacement>, patched: Result<seq<Byte>, PatchError>) {
    var text := codec.decode(content);
    && (!CountAccepted(replacements) ==> patched == Err(ProtocolMismatch))
    && (patched == Err(CommandDenied) <==> CountAccepted(replacements) && text.None?)
    && (CountAccepted(replacements) && text.Some? ==>
          && (patched.Ok? <==> exists texts :: Goes(texts, replacements) && texts[0] == text.value)
          && (forall texts :: Goes(texts, replacements) && texts[0] == text.value ==>
                patched == Ok(codec.encode(texts[|replacements|])))
          && (forall error :: patched == Err(error) <==> Fails(text.value, replacements, error)))
  }

  lemma AppliedExactly(codec: Codec, content: seq<Byte>, replacements: seq<Replacement>)
    ensures AppliesAs(codec, content, replacements, Applied(codec, content, replacements))
  {
    if CountAccepted(replacements) && codec.decode(content).Some? {
      var text := codec.decode(content).value;
      PatchExactly(text, replacements);
      if ReplaceAll(text, replacements).Err? {
        FailureShows(text, replacements);
      }
      hide Goes, ReplaceAll, FailsAt;
      forall error | Fails(text, replacements, error)
        ensures ReplaceAll(text, replacements) == Err(error)
      {
        var texts, k: nat :| FailsAt(texts, replacements, k, error) && texts[0] == text;
        ShownFailureIsIt(texts, replacements, k, error);
      }
      NeverDenied(text, replacements);
    }
  }

  lemma NeverDenied(text: Text, replacements: seq<Replacement>)
    ensures !Fails(text, replacements, CommandDenied)
  {
  }

  method ApplyWorkspacePatch(codec: Codec, content: seq<Byte>, replacements: seq<Replacement>)
    returns (patched: Result<seq<Byte>, PatchError>)
    ensures patched == Applied(codec, content, replacements)
    ensures AppliesAs(codec, content, replacements, patched)
  {
    AppliedExactly(codec, content, replacements);
    hide AppliesAs, ReplaceAll;
    if |replacements| < 1 || |replacements| > MAX_WORKSPACE_PATCH_REPLACEMENTS {
      return Err(ProtocolMismatch);
    }
    var decoded := codec.decode(content);
    if decoded.None? {
      return Err(CommandDenied);
    }
    var text := decoded.value;
    NothingReplaced(text, replacements[..0]);
    for k := 0 to |replacements|
      invariant ReplaceAll(decoded.value, replacements[..k]) == Ok(text)
    {
      var replacement := replacements[k];
      OneMoreReplacement(decoded.value, replacements, k);
      if replacement.oldText == [] {
        return Err(ProtocolMismatch);
      }
      var first := IndexOf(text, replacement.oldText, 0);
      if first.None? {
        return Err(NotFound);
      }
      if IndexOf(text, replacement.oldText, first.value + |replacement.oldText|).Some? {
        return Err(Ambiguous);
      }
      text := text[..first.value] + replacement.newText + text[first.value + |replacement.oldText|..];
    }
    assert replacements[..|replacements|] == replacements;
    return Ok(codec.encode(text));
  }
}
