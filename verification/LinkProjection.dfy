/** Rewriting the file links of an agent message: only link targets change, and each to the same
    file as seen from the workspace root. */
module LinkProjection {
  import opened Wrappers
  import RemotePaths
  import UriText

  // ------------------------------------------------------------------ one file reference

  /** Digits from i on: where they end. */
  function DigitsEnd(s: string, i: nat): (end: nat)
    requires i <= |s|
    ensures i <= end <= |s|
    decreases |s| - i
  {
    if i < |s| && '0' <= s[i] <= '9' then DigitsEnd(s, i + 1) else i
  }

  /** \d+ at i: where it ends, or nothing. */
  function Number(s: string, i: nat): (end: Option<nat>)
    ensures end.Some? ==> i < end.value <= |s|
  {
    if i < |s| && DigitsEnd(s, i) > i then Some(DigitsEnd(s, i)) else None
  }

  /** mark\d+ at i, if it is there; the mark is optional with its number. */
  function Optionally(s: string, i: nat, mark: string): (end: nat)
    requires i <= |s|
    ensures i <= end <= |s|
  {
    if i + |mark| <= |s| && s[i..i + |mark|] == mark && Number(s, i + |mark|).Some?
    then Number(s, i + |mark|).value
    else i
  }

  /** #L\d+(C\d+)?(-L\d+(C\d+)?)? and nothing else. */
  predicate IsHashLocation(s: string) {
    && |s| > 2 && s[..2] == "#L" && Number(s, 2).Some?
    && var first := Optionally(s, Number(s, 2).value, "C");
    var range := Optionally(s, first, "-L");
    first == |s| || (range > first && Optionally(s, range, "C") == |s|)
  }

  /** :\d+(:\d+)?([-–]\d+(:\d+)?)? and nothing else. */
  predicate IsColonLocation(s: string) {
    && |s| > 1 && s[0] == ':' && Number(s, 1).Some?
    && var first := Optionally(s, Number(s, 1).value, ":");
    var hyphen, dash := Optionally(s, first, "-"), Optionally(s, first, "\U{2013}");
    var range := if hyphen > first then hyphen else dash;
    first == |s| || (range > first && Optionally(s, range, ":") == |s|)
  }

  datatype Style = Hash | Colon

  predicate IsLocation(style: Style, s: string) {
    if style.Hash? then IsHashLocation(s) else IsColonLocation(s)
  }

  predicate IsLineEnd(c: char) {
    c == '\n' || c == '\r' || c == '\U{2028}' || c == '\U{2029}'
  }

  predicate OneLine(s: string) {
    forall i | 0 <= i < |s| :: !IsLineEnd(s[i])
  }

  /** Where the greedy match of a path leaves off: as late as a location can still follow. */
  function LocationStart(style: Style, target: string, k: nat): (at: Option<nat>)
    requires k <= |target|
    ensures at.Some? ==> at.value <= k && IsLocation(style, target[at.value..])
  {
    if IsLocation(style, target[k..]) then Some(k)
    else if k == 0 then None
    else LocationStart(style, target, k - 1)
  }

  // ------------------------------------------------------------------ what a location is

  /** A line, perhaps with a column. */
  datatype Point = Point(line: string, column: Option<string>)

  predicate Digits(s: string) {
    s != "" && forall i | 0 <= i < |s| :: '0' <= s[i] <= '9'
  }

  predicate Numbered(p: Point) {
    Digits(p.line) && (p.column.Some? ==> Digits(p.column.value))
  }

  function Spelt(p: Point, mark: string): string {
    p.line + if p.column.Some? then mark + p.column.value else ""
  }

  /** A location as text: a line, or from one to another, a column behind either. */
  function LocationText(style: Style, from: Point, dash: char, to: Option<Point>): string {
    if style.Hash? then "#L" + Spelt(from, "C") + if to.Some? then "-L" + Spelt(to.value, "C") else ""
    else ":" + Spelt(from, ":") + if to.Some? then [dash] + Spelt(to.value, ":") else ""
  }

  ghost predicate IsText(style: Style, s: string) {
    exists from: Point, dash: char, to: Option<Point> ::
      && s == LocationText(style, from, dash, to)
      && Numbered(from) && dash in "-\U{2013}" && (to.Some? ==> Numbered(to.value))
  }

  lemma {:induction false} DigitsEndExactly(s: string, i: nat, end: nat)
    requires i <= |s|
    ensures DigitsEnd(s, i) == end
            <==> && i <= end <= |s| && (forall k | i <= k < end :: '0' <= s[k] <= '9')
                 && (end < |s| ==> !('0' <= s[end] <= '9'))
    decreases |s| - i
  {
    if i < |s| && '0' <= s[i] <= '9' {
      DigitsEndExactly(s, i + 1, end);
    }
  }

  /** What has been read is a point. */
  lemma PointRead(s: string, i: nat, mark: string) returns (p: Point)
    requires Number(s, i).Some?
    ensures Numbered(p) && s[i..Optionally(s, Number(s, i).value, mark)] == Spelt(p, mark)
  {
    var line := Number(s, i).value;
    DigitsEndExactly(s, i, line);
    var end := Optionally(s, line, mark);
    if end > line {
      DigitsEndExactly(s, line + |mark|, end);
      p := Point(s[i..line], Some(s[line + |mark|..end]));
      assert s[i..end] == s[i..line] + (s[line..line + |mark|] + s[line + |mark|..end]);
    } else {
      p := Point(s[i..line], None);
    }
  }

  /** A point that stands at i is read to its end. */
  lemma PointIsRead(s: string, i: nat, p: Point, mark: string, end: nat)
    requires i <= end <= |s| && s[i..end] == Spelt(p, mark) && Numbered(p)
    requires mark != "" && !('0' <= mark[0] <= '9')
    requires end < |s| ==> !('0' <= s[end] <= '9') && s[end] != mark[0]
    ensures Number(s, i).Some? && Optionally(s, Number(s, i).value, mark) == end
  {
    var line := i + |p.line|;
    var text := Spelt(p, mark);
    assert forall k | i <= k < end :: s[k] == text[k - i];
    assert forall k | i <= k < line :: s[k] == p.line[k - i];
    if p.column.Some? {
      var column := line + |mark|;
      assert s[line] == mark[0];
      assert s[line..column] == mark;
      assert forall k | column <= k < end :: s[k] == p.column.value[k - column];
      DigitsEndExactly(s, column, end);
    }
    DigitsEndExactly(s, i, line);
  }

  lemma RangeText(style: Style, s: string, first: nat, from: Point, to: Point)
    requires
      if style.Hash? then
        && 2 <= first <= |s| - 2 && s[..2] == "#L" && s[first..first + 2] == "-L"
        && s[2..first] == Spelt(from, "C") && s[first + 2..] == Spelt(to, "C")
      else
        && 1 <= first < |s| && s[0] == ':'
        && s[1..first] == Spelt(from, ":") && s[first + 1..] == Spelt(to, ":")
    ensures s == LocationText(style, from, if style.Hash? then '-' else s[first], Some(to))
  {
    hide Spelt;
    if style.Hash? {
      assert s == s[..2] + s[2..first] + (s[first..first + 2] + s[first + 2..]);
    } else {
      assert s == ":" + s[1..first] + ([s[first]] + s[first + 1..]);
    }
  }

  lemma HashLocations(s: string)
    ensures IsHashLocation(s) ==> IsText(Hash, s)
  {
    hide Number, Spelt, Numbered;
    if IsHashLocation(s) {
      var first := Optionally(s, Number(s, 2).value, "C");
      var from := PointRead(s, 2, "C");
      if first == |s| {
        assert s == LocationText(Hash, from, '-', None);
      } else {
        var to := PointRead(s, first + 2, "C");
        RangeText(Hash, s, first, from, to);
      }
    }
  }

  lemma ColonLocations(s: string)
    ensures IsColonLocation(s) ==> IsText(Colon, s)
  {
    hide Number, Spelt, Numbered;
    if IsColonLocation(s) {
      var first := Optionally(s, Number(s, 1).value, ":");
      var from := PointRead(s, 1, ":");
      if first == |s| {
        assert s == LocationText(Colon, from, '-', None);
      } else {
        var to := PointRead(s, first + 1, ":");
        RangeText(Colon, s, first, from, to);
      }
    }
  }

  lemma FourParts(a: string, b: string, c: string, d: string)
    ensures
      var s := a + b + (c + d);
      && s[..|a|] == a && s[|a|..|a + b|] == b && s[|a + b|..|a + b + c|] == c && s[|a + b + c|..] == d
      && s[|a + b + c|..|s|] == d
  {
  }

  lemma TextsAreHashLocations(from: Point, to: Option<Point>)
    requires Numbered(from) && (to.Some? ==> Numbered(to.value))
    ensures IsHashLocation(LocationText(Hash, from, '-', to))
  {
    hide Number, Spelt, Numbered;
    var s := LocationText(Hash, from, '-', to);
    var first := 2 + |Spelt(from, "C")|;
    assert s[2..first] == Spelt(from, "C") && s[..2] == "#L";
    PointIsRead(s, 2, from, "C", first);
    if to.Some? {
      FourParts("#L", Spelt(from, "C"), "-L", Spelt(to.value, "C"));
      assert s[first..first + 2] == "-L" && s[first + 2..|s|] == Spelt(to.value, "C");
      PointIsRead(s, first + 2, to.value, "C", |s|);
    }
  }

  lemma TextsAreColonLocations(from: Point, dash: char, to: Option<Point>)
    requires Numbered(from) && dash in "-\U{2013}" && (to.Some? ==> Numbered(to.value))
    ensures IsColonLocation(LocationText(Colon, from, dash, to))
  {
    hide Number, Spelt, Numbered;
    var s := LocationText(Colon, from, dash, to);
    var first := 1 + |Spelt(from, ":")|;
    assert s[1..first] == Spelt(from, ":") && s[..1] == ":";
    PointIsRead(s, 1, from, ":", first);
    if to.Some? {
      FourParts(":", Spelt(from, ":"), [dash], Spelt(to.value, ":"));
      assert s[first..first + 1] == [dash] && s[first + 1..|s|] == Spelt(to.value, ":");
      PointIsRead(s, first + 1, to.value, ":", |s|);
      assert Optionally(s, first, [dash]) == Number(s, first + 1).value;
      assert [dash] == "-" || ([dash] == "\U{2013}" && s[first..first + 1] != "-");
    }
  }

  /** The two expressions accept exactly the locations. */
  lemma LocationsExactly(style: Style, s: string)
    ensures IsLocation(style, s) <==> IsText(style, s)
  {
    HashLocations(s);
    ColonLocations(s);
    hide IsHashLocation, IsColonLocation, Spelt, Numbered;
    if IsText(style, s) {
      var from: Point, dash: char, to: Option<Point> :|
        && s == LocationText(style, from, dash, to)
        && Numbered(from) && dash in "-\U{2013}" && (to.Some? ==> Numbered(to.value));
      if style.Hash? {
        assert s == LocationText(Hash, from, '-', to);
        TextsAreHashLocations(from, to);
      } else {
        TextsAreColonLocations(from, dash, to);
      }
    }
  }

  lemma SpeltIsOneLine(p: Point)
    requires Numbered(p)
    ensures OneLine(Spelt(p, "C")) && OneLine(Spelt(p, ":"))
  {
  }

  lemma LocationsAreOneLine(style: Style, s: string)
    requires IsLocation(style, s)
    ensures OneLine(s)
  {
    LocationsExactly(style, s);
    hide IsLocation, Numbered, Spelt;
    var from: Point, dash: char, to: Option<Point> :|
      && s == LocationText(style, from, dash, to)
      && Numbered(from) && dash in "-\U{2013}" && (to.Some? ==> Numbered(to.value));
    SpeltIsOneLine(from);
    if to.Some? {
      SpeltIsOneLine(to.value);
    }
  }

  // ------------------------------------------------------------------ path and location

  datatype Reference = Reference(path: string, location: string)

  function SplitAt(target: string, style: Style): Option<Reference> {
    match LocationStart(style, target, |target|)
    case None => None
    case Some(at) =>
      if at == 0 || !OneLine(target[..at]) then None else Some(Reference(target[..at], target[at..]))
  }

  function SplitFileReference(target: string): (reference: Reference)
    ensures reference.path + reference.location == target
  {
    var hash, colon := SplitAt(target, Hash), SplitAt(target, Colon);
    if hash.Some? then hash.value
    else if colon.Some? then colon.value
    else Reference(target, "")
  }

  /** The target can be taken apart at at: a path of one line, and a location. */
  predicate SplitsAt(target: string, style: Style, at: nat) {
    0 < at <= |target| && OneLine(target[..at]) && IsLocation(style, target[at..])
  }

  /** at is the last place, and so the longest path, at which the target can be taken apart. */
  ghost predicate SplitsLastAt(target: string, style: Style, at: nat) {
    SplitsAt(target, style, at) && forall k: nat | SplitsAt(target, style, k) :: k <= at
  }

  /** A location after # goes before one after a colon, and the longest path before a shorter one;
      without either the whole target is the path. */
  lemma SplitExactly(target: string)
    ensures
      var reference := SplitFileReference(target);
      var at := |reference.path|;
      if exists k: nat :: SplitsAt(target, Hash, k) then SplitsLastAt(target, Hash, at)
      else if exists k: nat :: SplitsAt(target, Colon, k) then SplitsLastAt(target, Colon, at)
      else reference.location == ""
  {
    SplitAtIsLast(target, Hash);
    SplitAtIsLast(target, Colon);
    hide SplitAt, SplitsLastAt, SplitsAt;
    assert SplitAt(target, Hash).Some? ==> SplitFileReference(target) == SplitAt(target, Hash).value;
  }

  lemma {:induction false} LocationStartIsLast(style: Style, target: string, k: nat)
    requires k <= |target|
    ensures var start := LocationStart(style, target, k);
      forall at: nat | at <= k && IsLocation(style, target[at..]) :: start.Some? && at <= start.value
  {
    hide IsLocation;
    if !IsLocation(style, target[k..]) && k > 0 {
      LocationStartIsLast(style, target, k - 1);
    }
  }

  lemma SplitAtIsLast(target: string, style: Style)
    ensures SplitAt(target, style).Some? <==> exists k: nat :: SplitsAt(target, style, k)
    ensures SplitAt(target, style).Some? ==> SplitsLastAt(target, style, |SplitAt(target, style).value.path|)
  {
    LocationStartIsLast(style, target, |target|);
    hide IsLocation, LocationStart;
    var start := LocationStart(style, target, |target|);
    if start.Some? {
      assert OneLine(target[..start.value]) && start.value > 0 ==> SplitsAt(target, style, start.value);
      if k: nat :| SplitsAt(target, style, k) {
        LocationsAreOneLine(style, target[k..]);
        assert forall i | k <= i < start.value :: target[i] == target[k..][i - k];
      }
    }
  }

  /** root: the primary remote root, if one is configured. */
  function ProjectReference(target: string, root: Option<string>): string {
    var reference := SplitFileReference(target);
    if !RemotePaths.IsAbsolute(reference.path) || root.None? then target
    else
      match RemotePaths.WorkspaceRelativePath(root.value, reference.path)
      case Err(_) => target
      case Ok(child) => child + reference.location
  }

  /** A target changes exactly if its path is absolute and strictly inside the root; it then leads
      from the root to the same file, with the same location behind it. */
  lemma ReferenceExactly(target: string, root: Option<string>)
    ensures var reference := SplitFileReference(target);
      && (ProjectReference(target, root) != target
          <==> RemotePaths.IsAbsolute(reference.path) && root.Some? && RemotePaths.Inside(root.value, reference.path))
      && (ProjectReference(target, root) != target ==>
            exists child: string ::
              && ProjectReference(target, root) == child + reference.location
              && !RemotePaths.IsAbsolute(child)
              && RemotePaths.Components(root.value + "/" + child) == RemotePaths.Components(reference.path))
  {
    var reference := SplitFileReference(target);
    if RemotePaths.IsAbsolute(reference.path) && root.Some? {
      RemotePaths.RelativePathExactly(root.value, reference.path);
      var child := RemotePaths.WorkspaceRelativePath(root.value, reference.path);
      if child.Ok? {
        assert ProjectReference(target, root) == child.value + reference.location;
        assert target == reference.path + reference.location;
        ChildIsNoPath(child.value, reference, target);
      }
    }
  }

  lemma ChildIsNoPath(child: string, reference: Reference, target: string)
    requires target == reference.path + reference.location && RemotePaths.IsAbsolute(reference.path)
    requires !RemotePaths.IsAbsolute(child) && RemotePaths.Proper(UriText.Split(child, '/')[0])
    ensures child + reference.location != target
  {
    assert UriText.Split("", '/')[0] == "";
    assert (child + reference.location)[0] == child[0];
  }

  // ------------------------------------------------------------------ one link destination

  /** White space as trimStart and \s see it. */
  predicate IsSpace(c: char) {
    || '\t' <= c <= '\r' || c == ' ' || c == '\U{00A0}' || c == '\U{1680}' || '\U{2000}' <= c <= '\U{200A}'
    || c == '\U{2028}' || c == '\U{2029}' || c == '\U{202F}' || c == '\U{205F}' || c == '\U{3000}' || c == '\U{FEFF}'
  }

  function SpacesEnd(s: string, i: nat): (end: nat)
    requires i <= |s|
    ensures i <= end <= |s|
    decreases |s| - i
  {
    if i < |s| && IsSpace(s[i]) then SpacesEnd(s, i + 1) else i
  }

  function IndexOf(s: string, c: char, i: nat): (at: Option<nat>)
    requires i <= |s|
    ensures at.Some? ==> i <= at.value < |s| && s[at.value] == c
    decreases |s| - i
  {
    if i == |s| then None else if s[i] == c then Some(i) else IndexOf(s, c, i + 1)
  }

  /** A bare target runs to the first space; a backslash takes the next character with it. */
  function BareEnd(s: string, i: nat): (end: nat)
    ensures end >= i
    decreases |s| - i
  {
    if i >= |s| then i
    else if s[i] == '\\' then BareEnd(s, i + 2)
    else if IsSpace(s[i]) then i
    else BareEnd(s, i + 1)
  }

  function Min(a: nat, b: nat): nat {
    if a < b then a else b
  }

  /** Where the target lies, in a destination that does not begin with space; None if it opens
      with < and never closes. */
  function TargetSpan(remainder: string): (span: Option<(nat, nat)>)
    ensures span.Some? ==> span.value.0 <= span.value.1 <= |remainder|
  {
    if remainder != "" && remainder[0] == '<' then
      match IndexOf(remainder, '>', 0)
      case None => None
      case Some(end) => Some((1, end))
    else Some((0, Min(BareEnd(remainder, 0), |remainder|)))
  }

  function ProjectRemainder(remainder: string, root: Option<string>): string {
    match TargetSpan(remainder)
    case None => remainder
    case Some((start, end)) =>
      remainder[..start] + ProjectReference(remainder[start..end], root) + remainder[end..]
  }

  /** The destination with its target projected and everything around it as it was. */
  function ProjectDestination(content: string, root: Option<string>): string {
    var leadingLength := SpacesEnd(content, 0);
    content[..leadingLength] + ProjectRemainder(content[leadingLength..], root)
  }

  method BareTargetEnd(remainder: string) returns (end: nat)
    ensures end == Min(BareEnd(remainder, 0), |remainder|)
  {
    end := 0;
    while end < |remainder|
      invariant BareEnd(remainder, end) == BareEnd(remainder, 0)
      decreases |remainder| - end
    {
      if remainder[end] == '\\' {
        end := end + 2;
        continue;
      }
      if IsSpace(remainder[end]) {
        break;
      }
      end := end + 1;
    }
    end := Min(end, |remainder|);
  }

  /** Putting text in place of itself changes nothing. */
  lemma SamePiece(s: string, start: nat, end: nat)
    requires start <= end <= |s|
    ensures s[..start] + s[start..end] + s[end..] == s
  {
  }

  method ProjectLinkDestination(content: string, root: Option<string>) returns (projected: string)
    ensures projected == ProjectDestination(content, root)
  {
    hide BareEnd, SpacesEnd, IndexOf, ProjectReference, IsSpace;
    var leadingLength := SpacesEnd(content, 0);
    var leading, remainder := content[..leadingLength], content[leadingLength..];
    assert leading + remainder == content;
    if |remainder| > 0 && remainder[0] == '<' {
      var end := IndexOf(remainder, '>', 0);
      if end.None? {
        return content;
      }
      var target := remainder[1..end.value];
      var next := ProjectReference(target, root);
      SamePiece(remainder, 1, end.value);
      return if next == target then content
             else leading + (remainder[..1] + next + remainder[end.value..]);
    }
    var end := BareTargetEnd(remainder);
    var target := remainder[..end];
    var next := ProjectReference(target, root);
    SamePiece(remainder, 0, end);
    assert remainder[..0] + next == next && remainder[0..end] == target;
    return if next == target then content else leading + (next + remainder[end..]);
  }

  // ------------------------------------------------------------------ links and code in a message

  /** The closing parenthesis that matches, from index on with nested more still open. */
  function LinkEnd(text: string, index: nat, nested: nat): (end: Option<nat>)
    ensures end.Some? ==> index <= end.value < |text| && text[end.value] == ')'
    decreases |text| - index
  {
    if index >= |text| then None
    else if text[index] == '\\' then LinkEnd(text, index + 2, nested)
    else if text[index] == '(' then LinkEnd(text, index + 1, nested + 1)
    else if text[index] == ')' then (if nested == 0 then Some(index) else LinkEnd(text, index + 1, nested - 1))
    else LinkEnd(text, index + 1, nested)
  }

  method MarkdownLinkEnd(text: string, start: nat) returns (end: Option<nat>)
    ensures end == LinkEnd(text, start, 0)
  {
    var nested, index := 0, start;
    while index < |text|
      invariant LinkEnd(text, index, nested) == LinkEnd(text, start, 0)
      decreases |text| - index
    {
      var character := text[index];
      if character == '\\' {
        index := index + 2;
        continue;
      }
      if character == '(' {
        nested := nested + 1;
      } else if character == ')' {
        if nested == 0 {
          return Some(index);
        }
        nested := nested - 1;
      }
      index := index + 1;
    }
    return None;
  }

  /** How many parentheses are open at end, counting unescaped ones from index; None if end is
      escaped or more close than are open. */
  function OpenAt(text: string, index: nat, end: nat, open: int): Option<int>
    decreases |text| - index
  {
    if open < 0 || index > end || end > |text| then None
    else if index == end then Some(open)
    else if text[index] == '\\' then OpenAt(text, index + 2, end, open)
    else OpenAt(text, index + 1, end,
                if text[index] == '(' then open + 1 else if text[index] == ')' then open - 1 else open)
  }

  /** The end of a link is its matching parenthesis: unescaped, balanced before it, and the only
      such one. */
  lemma {:induction false} LinkEndMatches(text: string, index: nat, nested: nat, end: nat)
    ensures LinkEnd(text, index, nested) == Some(end)
            <==> index <= end < |text| && text[end] == ')' && OpenAt(text, index, end, nested) == Some(0)
    decreases |text| - index
  {
    if index < |text| {
      if text[index] == '\\' {
        LinkEndMatches(text, index + 2, nested, end);
      } else if text[index] == ')' && nested == 0 {
        assert OpenAt(text, index, index, 0) == Some(0);
        assert index < end ==> OpenAt(text, index + 1, end, -1).None?;
      } else {
        LinkEndMatches(text, index + 1,
          if text[index] == '(' then nested + 1 else if text[index] == ')' then nested - 1 else nested, end);
      }
    }
  }

  /** How many backticks run from i. */
  function TickRun(text: string, i: nat): (n: nat)
    requires i <= |text|
    ensures i + n <= |text| && (i < |text| && text[i] == '`' ==> n > 0)
    decreases |text| - i
  {
    if i < |text| && text[i] == '`' then 1 + TickRun(text, i + 1) else 0
  }

  predicate TicksAt(text: string, n: nat, i: nat) {
    i + n <= |text| && forall k | i <= k < i + n :: text[k] == '`'
  }

  /** The next n backticks in a row. */
  function TicksFrom(text: string, n: nat, i: nat): (at: Option<nat>)
    ensures at.Some? ==> i <= at.value && at.value + n <= |text|
    decreases |text| - i
  {
    if TicksAt(text, n, i) then Some(i) else if i >= |text| then None else TicksFrom(text, n, i + 1)
  }

  lemma {:induction false} TickRunIsTicks(text: string, i: nat)
    requires i <= |text|
    ensures TicksAt(text, TickRun(text, i), i)
    ensures i + TickRun(text, i) < |text| ==> text[i + TickRun(text, i)] != '`'
    decreases |text| - i
  {
    if i < |text| && text[i] == '`' {
      TickRunIsTicks(text, i + 1);
    }
  }

  lemma {:induction false} TicksFromIsFirst(text: string, n: nat, i: nat)
    requires TicksFrom(text, n, i).Some?
    ensures TicksAt(text, n, TicksFrom(text, n, i).value)
    ensures forall k | i <= k < TicksFrom(text, n, i).value :: !TicksAt(text, n, k)
    decreases |text| - i
  {
    hide TicksAt;
    if !TicksAt(text, n, i) {
      TicksFromIsFirst(text, n, i + 1);
    }
  }

  /** What the scan passes over in one go: a code span, or the destination of a link. */
  datatype Mark = Code(start: nat, end: nat) | Link(start: nat, end: nat)

  predicate OpensLink(text: string, i: nat) {
    i + 1 < |text| && text[i] == ']' && text[i + 1] == '('
  }

  /** What the scan finds from cursor on, left to right. */
  function Marks(text: string, cursor: nat): seq<Mark>
    decreases |text| - cursor
  {
    if cursor >= |text| then []
    else if text[cursor] == '`' then
      var n := TickRun(text, cursor);
      match TicksFrom(text, n, cursor + n)
      case None => []
      case Some(end) => [Code(cursor, end + n)] + Marks(text, end + n)
    else if !OpensLink(text, cursor) then Marks(text, cursor + 1)
    else
      match LinkEnd(text, cursor + 2, 0)
      case None => []
      case Some(end) => [Link(cursor + 2, end)] + Marks(text, end + 1)
  }

  /** text from from on, with the destinations of the marked links projected. */
  function Assembled(text: string, from: nat, marks: seq<Mark>, root: Option<string>): string
    requires InOrder(text, from, marks)
    decreases |marks|
  {
    if marks == [] then text[from..]
    else
      var m := marks[0];
      var piece := text[m.start..m.end];
      text[from..m.start]
      + (if m.Code? then piece else ProjectDestination(piece, root))
      + Assembled(text, m.end, marks[1..], root)
  }

  /** Marks one after the other from from on. */
  predicate InOrder(text: string, from: nat, marks: seq<Mark>)
    decreases |marks|
  {
    if marks == [] then from <= |text|
    else
      && from <= marks[0].start <= marks[0].end <= |text|
      && InOrder(text, marks[0].end, marks[1..])
  }

  lemma {:induction false} MarksInOrder(text: string, cursor: nat, from: nat)
    requires from <= cursor <= |text|
    ensures InOrder(text, from, Marks(text, cursor))
    decreases |text| - cursor
  {
    if cursor < |text| {
      if text[cursor] == '`' {
        var n := TickRun(text, cursor);
        var end := TicksFrom(text, n, cursor + n);
        if end.Some? {
          MarksInOrder(text, end.value + n, end.value + n);
        }
      } else if !OpensLink(text, cursor) {
        MarksInOrder(text, cursor + 1, from);
      } else {
        var end := LinkEnd(text, cursor + 2, 0);
        if end.Some? {
          MarksInOrder(text, end.value + 1, end.value);
        }
      }
    }
  }

  lemma Reassociate(a: string, b: string, c: string, d: string)
    ensures a + (b + c + d) == (a + b) + c + d
  {
  }

  lemma Adjacent(text: string, from: nat, to: nat, end: nat)
    requires from <= to <= end <= |text|
    ensures text[from..end] == text[from..to] + text[to..end]
    ensures text[from..] == text[from..to] + text[to..]
  {
  }

  /** Text in front of the marks is copied as it is. */
  lemma CopyThrough(text: string, from: nat, to: nat, marks: seq<Mark>, root: Option<string>)
    requires from <= to && InOrder(text, to, marks)
    ensures to <= |text| && InOrder(text, from, marks)
    ensures Assembled(text, from, marks, root) == text[from..to] + Assembled(text, to, marks, root)
  {
    hide ProjectDestination;
    if marks == [] {
      Adjacent(text, from, to, to);
    } else {
      var m := marks[0];
      var piece := text[m.start..m.end];
      Adjacent(text, from, to, m.start);
      Reassociate(text[from..to], text[to..m.start], if m.Code? then piece else ProjectDestination(piece, root),
        Assembled(text, m.end, marks[1..], root));
    }
  }

  /** A mark that leaves its text as it is need not be told apart from the text around it. */
  lemma CopyMark(text: string, from: nat, mark: Mark, marks: seq<Mark>, root: Option<string>)
    requires InOrder(text, from, [mark] + marks)
    requires mark.Link? ==> ProjectDestination(text[mark.start..mark.end], root) == text[mark.start..mark.end]
    ensures InOrder(text, from, marks)
    ensures Assembled(text, from, [mark] + marks, root) == Assembled(text, from, marks, root)
  {
    assert ([mark] + marks)[1..] == marks;
    CopyThrough(text, from, mark.end, marks, root);
    assert text[from..mark.end] == text[from..mark.start] + text[mark.start..mark.end];
  }

  lemma ReplaceMark(text: string, from: nat, mark: Mark, marks: seq<Mark>, root: Option<string>)
    requires InOrder(text, from, [mark] + marks) && mark.Link?
    ensures InOrder(text, mark.end, marks)
    ensures Assembled(text, from, [mark] + marks, root)
            == text[from..mark.start] + ProjectDestination(text[mark.start..mark.end], root)
               + Assembled(text, mark.end, marks, root)
  {
    assert ([mark] + marks)[1..] == marks;
  }

  // ------------------------------------------------------------------ a message in pieces

  /** gaps with spans between them: gaps[0] + spans[0] + gaps[1] + ... */
  function Woven(gaps: seq<string>, spans: seq<string>): string
    requires |gaps| == |spans| + 1
  {
    if spans == [] then gaps[0] else gaps[0] + spans[0] + Woven(gaps[1..], spans[1..])
  }

  predicate IsPiece(text: string, start: nat, end: nat, piece: string) {
    start <= end <= |text| && piece == text[start..end]
  }

  function GapStart(from: nat, marks: seq<Mark>, i: nat): nat
    requires i <= |marks|
  {
    if i == 0 then from else marks[i - 1].end
  }

  function GapEnd(text: string, marks: seq<Mark>, i: nat): nat
    requires i <= |marks|
  {
    if i == |marks| then |text| else marks[i].start
  }

  /** The pieces of text from from on: gaps between the marks as they are, code as it is, and the
      destination of each link projected. */
  predicate InPieces(
    text: string, from: nat, marks: seq<Mark>, root: Option<string>, gaps: seq<string>, spans: seq<string>) {
    && |spans| == |marks| && |gaps| == |marks| + 1
    && (forall i | 0 <= i < |gaps| :: IsPiece(text, GapStart(from, marks, i), GapEnd(text, marks, i), gaps[i]))
    && forall i | 0 <= i < |spans| ::
         && marks[i].start <= marks[i].end <= |text|
         && spans[i] == if marks[i].Code? then text[marks[i].start..marks[i].end]
                        else ProjectDestination(text[marks[i].start..marks[i].end], root)
  }

  ghost predicate OnlyLinksProjected(text: string, marks: seq<Mark>, root: Option<string>, result: string) {
    exists gaps: seq<string>, spans: seq<string> ::
      InPieces(text, 0, marks, root, gaps, spans) && result == Woven(gaps, spans)
  }

  lemma OnePieceMore(
    text: string, from: nat, marks: seq<Mark>, root: Option<string>, gaps: seq<string>, spans: seq<string>)
    requires marks != [] && |gaps| > 1 && |spans| > 0
    requires InPieces(text, marks[0].end, marks[1..], root, gaps[1..], spans[1..])
    requires marks[0].start <= marks[0].end <= |text| && IsPiece(text, from, marks[0].start, gaps[0])
    requires spans[0] == (if marks[0].Code? then text[marks[0].start..marks[0].end]
                          else ProjectDestination(text[marks[0].start..marks[0].end], root))
    ensures InPieces(text, from, marks, root, gaps, spans)
  {
    hide ProjectDestination, IsPiece;
    forall i | 0 <= i < |gaps|
      ensures IsPiece(text, GapStart(from, marks, i), GapEnd(text, marks, i), gaps[i])
    {
      if i > 0 {
        assert gaps[i] == gaps[1..][i - 1];
      }
    }
    forall i | 0 <= i < |spans|
      ensures marks[i].start <= marks[i].end <= |text|
      ensures spans[i] == if marks[i].Code? then text[marks[i].start..marks[i].end]
                          else ProjectDestination(text[marks[i].start..marks[i].end], root)
    {
      if i > 0 {
        assert marks[i] == marks[1..][i - 1] && spans[i] == spans[1..][i - 1];
      }
    }
  }

  lemma {:induction false} AssembledInPieces(
    text: string, from: nat, marks: seq<Mark>, root: Option<string>)
    returns (gaps: seq<string>, spans: seq<string>)
    requires InOrder(text, from, marks)
    ensures InPieces(text, from, marks, root, gaps, spans)
    ensures Assembled(text, from, marks, root) == Woven(gaps, spans)
    decreases |marks|
  {
    hide ProjectDestination;
    if marks == [] {
      gaps, spans := [text[from..]], [];
      assert IsPiece(text, from, |text|, gaps[0]);
      assert GapStart(from, marks, 0) == from && GapEnd(text, marks, 0) == |text|;
    } else {
      var m := marks[0];
      var piece := text[m.start..m.end];
      var gaps', spans' := AssembledInPieces(text, m.end, marks[1..], root);
      gaps := [text[from..m.start]] + gaps';
      spans := [if m.Code? then piece else ProjectDestination(piece, root)] + spans';
      assert gaps[1..] == gaps' && spans[1..] == spans';
      OnePieceMore(text, from, marks, root, gaps, spans);
    }
  }

  lemma OnlyLinksAreProjected(text: string, root: Option<string>)
    requires InOrder(text, 0, Marks(text, 0))
    ensures OnlyLinksProjected(text, Marks(text, 0), root, Assembled(text, 0, Marks(text, 0), root))
  {
    hide Marks;
    var gaps, spans := AssembledInPieces(text, 0, Marks(text, 0), root);
  }

  method DelimiterLength(text: string, cursor: nat) returns (length: nat)
    requires cursor < |text| && text[cursor] == '`'
    ensures length == TickRun(text, cursor)
  {
    length := 1;
    while cursor + length < |text| && text[cursor + length] == '`'
      invariant cursor + length <= |text| && length + TickRun(text, cursor + length) == TickRun(text, cursor)
    {
      length := length + 1;
    }
  }

  /** What is still to be written, copied so far through copiedThrough. */
  ghost predicate Remaining(
    text: string, projected: string, copiedThrough: nat, cursor: nat, root: Option<string>, all: string) {
    && copiedThrough <= cursor <= |text| && InOrder(text, copiedThrough, Marks(text, cursor))
    && projected + Assembled(text, copiedThrough, Marks(text, cursor), root) == all
  }

  lemma AfterCode(
    text: string, projected: string, copiedThrough: nat, cursor: nat, end: nat, root: Option<string>, all: string)
    requires Remaining(text, projected, copiedThrough, cursor, root, all)
    requires cursor < |text| && text[cursor] == '`'
    requires TicksFrom(text, TickRun(text, cursor), cursor + TickRun(text, cursor)) == Some(end)
    ensures Remaining(text, projected, copiedThrough, end + TickRun(text, cursor), root, all)
  {
    hide *;
    CodeMark(text, cursor, end);
    var next := end + TickRun(text, cursor);
    RemainingSays(text, projected, copiedThrough, cursor, root, all);
    CopyMark(text, copiedThrough, Code(cursor, next), Marks(text, next), root);
    SaysRemaining(text, projected, copiedThrough, next, root, all);
  }

  lemma RemainingSays(
    text: string, projected: string, copiedThrough: nat, cursor: nat, root: Option<string>, all: string)
    requires Remaining(text, projected, copiedThrough, cursor, root, all)
    ensures copiedThrough <= cursor <= |text| && InOrder(text, copiedThrough, Marks(text, cursor))
    ensures projected + Assembled(text, copiedThrough, Marks(text, cursor), root) == all
  {
    hide InOrder, Assembled, Marks;
  }

  lemma SaysRemaining(
    text: string, projected: string, copiedThrough: nat, cursor: nat, root: Option<string>, all: string)
    requires copiedThrough <= cursor <= |text| && InOrder(text, copiedThrough, Marks(text, cursor))
    requires projected + Assembled(text, copiedThrough, Marks(text, cursor), root) == all
    ensures Remaining(text, projected, copiedThrough, cursor, root, all)
  {
    hide InOrder, Assembled, Marks;
  }

  lemma CodeMark(text: string, cursor: nat, end: nat)
    requires cursor < |text| && text[cursor] == '`'
    requires TicksFrom(text, TickRun(text, cursor), cursor + TickRun(text, cursor)) == Some(end)
    ensures var next := end + TickRun(text, cursor);
      cursor < next <= |text| && Marks(text, cursor) == [Code(cursor, next)] + Marks(text, next)
  {
    hide TicksFrom;
  }

  lemma AfterLink(
    text: string, projected: string, copiedThrough: nat, cursor: nat, end: nat, root: Option<string>, all: string)
    requires Remaining(text, projected, copiedThrough, cursor, root, all)
    requires cursor < |text| && OpensLink(text, cursor) && LinkEnd(text, cursor + 2, 0) == Some(end)
    ensures copiedThrough <= cursor + 2 <= end < |text|
    ensures var piece := text[cursor + 2..end];
      var next := ProjectDestination(piece, root);
      if next == piece then Remaining(text, projected, copiedThrough, end + 1, root, all)
      else Remaining(text, projected + text[copiedThrough..cursor + 2] + next, end, end + 1, root, all)
  {
    var mark, rest := Link(cursor + 2, end), Marks(text, end + 1);
    assert Marks(text, cursor) == [mark] + rest;
    var piece := text[cursor + 2..end];
    hide ProjectDestination, LinkEnd, TickRun, TicksFrom;
    if ProjectDestination(piece, root) == piece {
      CopyMark(text, copiedThrough, mark, rest, root);
    } else {
      ReplaceMark(text, copiedThrough, mark, rest, root);
      hide Assembled, Marks, InOrder;
      Reassociate(projected, text[copiedThrough..cursor + 2], ProjectDestination(piece, root),
        Assembled(text, end, rest, root));
    }
  }

  lemma ScanStarts(text: string, root: Option<string>)
    ensures InOrder(text, 0, Marks(text, 0))
    ensures Remaining(text, "", 0, 0, root, Assembled(text, 0, Marks(text, 0), root))
  {
    MarksInOrder(text, 0, 0);
    var all := Assembled(text, 0, Marks(text, 0), root);
    assert "" + all == all;
  }

  lemma ScanEnds(text: string, projected: string, copiedThrough: nat, cursor: nat, root: Option<string>, all: string)
    requires Remaining(text, projected, copiedThrough, cursor, root, all) && Marks(text, cursor) == []
    ensures copiedThrough <= |text| && projected + text[copiedThrough..] == all
  {
  }

  lemma ScanMoves(text: string, projected: string, copiedThrough: nat, cursor: nat, root: Option<string>, all: string)
    requires Remaining(text, projected, copiedThrough, cursor, root, all)
    requires cursor < |text| && text[cursor] != '`' && !OpensLink(text, cursor)
    ensures Remaining(text, projected, copiedThrough, cursor + 1, root, all)
  {
  }

  lemma ScanStops(text: string, cursor: nat)
    requires cursor <= |text|
    requires cursor < |text| ==>
               if text[cursor] == '`'
               then TicksFrom(text, TickRun(text, cursor), cursor + TickRun(text, cursor)).None?
               else OpensLink(text, cursor) && LinkEnd(text, cursor + 2, 0).None?
    ensures Marks(text, cursor) == []
  {
  }

  method ProjectAgentMessageLinks(text: string, root: Option<string>) returns (result: string)
    ensures OnlyLinksProjected(text, Marks(text, 0), root, result)
  {
    ScanStarts(text, root);
    hide Remaining, Marks, Assembled, ProjectDestination, LinkEnd, TickRun, TicksFrom, InOrder, OnlyLinksProjected;
    ghost var all := Assembled(text, 0, Marks(text, 0), root);
    var cursor: nat, copiedThrough: nat, projected, changed := 0, 0, "", false;
    while cursor < |text|
      invariant cursor <= |text| && copiedThrough <= |text|
      invariant Remaining(text, projected, copiedThrough, cursor, root, all)
      invariant !changed ==> projected == "" && copiedThrough == 0
      decreases |text| - cursor
    {
      if text[cursor] == '`' {
        var delimiterLength := DelimiterLength(text, cursor);
        var end := TicksFrom(text, delimiterLength, cursor + delimiterLength);
        if end.None? {
          break;
        }
        AfterCode(text, projected, copiedThrough, cursor, end.value, root, all);
        cursor := end.value + delimiterLength;
        continue;
      }
      if !OpensLink(text, cursor) {
        ScanMoves(text, projected, copiedThrough, cursor, root, all);
        cursor := cursor + 1;
        continue;
      }
      var destinationEnd := MarkdownLinkEnd(text, cursor + 2);
      if destinationEnd.None? {
        break;
      }
      AfterLink(text, projected, copiedThrough, cursor, destinationEnd.value, root, all);
      var destination := text[cursor + 2..destinationEnd.value];
      var nextDestination := ProjectLinkDestination(destination, root);
      if nextDestination != destination {
        projected := projected + text[copiedThrough..cursor + 2] + nextDestination;
        copiedThrough := destinationEnd.value;
        changed := true;
      }
      cursor := destinationEnd.value + 1;
    }
    ScanStops(text, cursor);
    ScanEnds(text, projected, copiedThrough, cursor, root, all);
    assert "" + text[0..] == text;
    result := if changed then projected + text[copiedThrough..] else text;
    assert result == all;
    OnlyLinksAreProjected(text, root);
  }

  // ------------------------------------------------------------------ what the marks are

  /** Exactly n backticks open at i. */
  predicate OpensCode(text: string, n: nat, i: nat) {
    n > 0 && TicksAt(text, n, i) && (i + n < |text| ==> text[i + n] != '`')
  }

  /** A code span runs from all the backticks in a row to the next as many; a link's destination
      follows ]( and ends at the matching parenthesis. */
  ghost predicate Delimited(text: string, m: Mark) {
    match m
    case Code(start, end) =>
      exists n: nat :: OpensCode(text, n, start) && start + 2 * n <= end && TicksAt(text, n, end - n)
                       && forall k: nat | start + n <= k < end - n :: !TicksAt(text, n, k)
    case Link(start, end) => start >= 2 && OpensLink(text, start - 2) && LinkEnd(text, start, 0) == Some(end)
  }

  lemma {:induction false} MarksAreDelimited(text: string, cursor: nat)
    ensures forall m | m in Marks(text, cursor) :: Delimited(text, m) && m.end <= |text|
    decreases |text| - cursor
  {
    hide Delimited, LinkEnd, TickRun, TicksFrom;
    if cursor < |text| {
      if text[cursor] == '`' {
        var n := TickRun(text, cursor);
        var end := TicksFrom(text, n, cursor + n);
        if end.Some? {
          MarksAreDelimited(text, end.value + n);
          CodeIsDelimited(text, cursor, end.value);
        }
      } else if !OpensLink(text, cursor) {
        MarksAreDelimited(text, cursor + 1);
      } else {
        var end := LinkEnd(text, cursor + 2, 0);
        if end.Some? {
          MarksAreDelimited(text, end.value + 1);
          LinkIsDelimited(text, cursor, end.value);
        }
      }
    }
  }

  lemma CodeIsDelimited(text: string, cursor: nat, end: nat)
    requires cursor < |text| && text[cursor] == '`'
    requires TicksFrom(text, TickRun(text, cursor), cursor + TickRun(text, cursor)) == Some(end)
    ensures Delimited(text, Code(cursor, end + TickRun(text, cursor)))
  {
    var n := TickRun(text, cursor);
    TickRunIsTicks(text, cursor);
    TicksFromIsFirst(text, n, cursor + n);
    assert OpensCode(text, n, cursor);
    hide TickRun, TicksFrom, TicksAt, OpensCode;
    assert end + n - n == end;
  }

  lemma LinkIsDelimited(text: string, cursor: nat, end: nat)
    requires OpensLink(text, cursor) && LinkEnd(text, cursor + 2, 0) == Some(end)
    ensures Delimited(text, Link(cursor + 2, end))
  {
  }

  /** Where the scan gives up: at a code span or a link that never closes, or at the end. */
  function ScanEnd(text: string, cursor: nat): nat
    decreases |text| - cursor
  {
    if cursor >= |text| then cursor
    else if text[cursor] == '`' then
      var n := TickRun(text, cursor);
      match TicksFrom(text, n, cursor + n)
      case None => cursor
      case Some(end) => ScanEnd(text, end + n)
    else if !OpensLink(text, cursor) then ScanEnd(text, cursor + 1)
    else
      match LinkEnd(text, cursor + 2, 0)
      case None => cursor
      case Some(end) => ScanEnd(text, end + 1)
  }

  /** Position p lies in mark m, the brackets of a link included. */
  predicate Covers(m: Mark, p: nat) {
    if m.Code? then m.start <= p < m.end else m.start <= p + 2 && p <= m.end
  }

  /** Nothing closes what opens at i. */
  ghost predicate Unclosed(text: string, i: nat) {
    || (OpensLink(text, i) && forall end: nat :: LinkEnd(text, i + 2, 0) != Some(end))
    || exists n: nat :: OpensCode(text, n, i) && forall k: nat | i + n <= k :: !TicksAt(text, n, k)
  }

  lemma {:induction false} NoTicksFrom(text: string, n: nat, i: nat)
    requires TicksFrom(text, n, i).None?
    ensures forall k: nat | i <= k :: !TicksAt(text, n, k)
    decreases |text| - i
  {
    if i < |text| {
      NoTicksFrom(text, n, i + 1);
    }
  }

  lemma CodeNeverCloses(text: string, i: nat)
    requires i < |text| && text[i] == '`'
    requires TicksFrom(text, TickRun(text, i), i + TickRun(text, i)).None?
    ensures Unclosed(text, i)
  {
    var n := TickRun(text, i);
    TickRunIsTicks(text, i);
    NoTicksFrom(text, n, i + n);
    assert OpensCode(text, n, i);
  }

  /** The scan gives up only where code or a link opens that nothing closes, behind all marks. */
  lemma {:induction false} GivesUpExactly(text: string, cursor: nat)
    requires cursor <= |text|
    ensures var end := ScanEnd(text, cursor);
      && cursor <= end <= |text| && (end < |text| ==> Unclosed(text, end))
      && forall m | m in Marks(text, cursor) :: cursor <= m.start <= m.end <= end
    decreases |text| - cursor
  {
    hide LinkEnd, TickRun, TicksFrom, Unclosed, OpensLink;
    if cursor < |text| {
      if text[cursor] == '`' {
        var n := TickRun(text, cursor);
        var end := TicksFrom(text, n, cursor + n);
        if end.Some? {
          GivesUpExactly(text, end.value + n);
        } else {
          CodeNeverCloses(text, cursor);
        }
      } else if !OpensLink(text, cursor) {
        GivesUpExactly(text, cursor + 1);
      } else {
        var end := LinkEnd(text, cursor + 2, 0);
        if end.Some? {
          GivesUpExactly(text, end.value + 1);
        } else {
          LinkNeverCloses(text, cursor);
        }
      }
    }
  }

  lemma LinkNeverCloses(text: string, i: nat)
    requires OpensLink(text, i) && LinkEnd(text, i + 2, 0).None?
    ensures Unclosed(text, i)
  {
  }

  /** Before the scan gives up it misses nothing: every ]( and every backtick lies in a mark. */
  lemma {:induction false} MarksMissNothing(text: string, cursor: nat, p: nat)
    requires cursor <= p < ScanEnd(text, cursor) && (OpensLink(text, p) || (p < |text| && text[p] == '`'))
    ensures exists m :: m in Marks(text, cursor) && Covers(m, p)
    decreases |text| - cursor
  {
    hide LinkEnd, TickRun, TicksFrom;
    if cursor < |text| {
      if text[cursor] == '`' {
        var n := TickRun(text, cursor);
        var end := TicksFrom(text, n, cursor + n);
        if end.Some? {
          if p < end.value + n {
            assert Code(cursor, end.value + n) in Marks(text, cursor);
          } else {
            MarksMissNothing(text, end.value + n, p);
          }
        }
      } else if !OpensLink(text, cursor) {
        MarksMissNothing(text, cursor + 1, p);
      } else {
        var end := LinkEnd(text, cursor + 2, 0);
        if end.Some? {
          if p <= end.value {
            assert Link(cursor + 2, end.value) in Marks(text, cursor);
          } else {
            MarksMissNothing(text, end.value + 1, p);
          }
        }
      }
    }
  }

  /** Scanning from i, with each backslash taking the next character along, one gets to p. */
  predicate Unescaped(s: string, i: nat, p: nat)
    decreases p - i
  {
    i == p || (i < p && i < |s| && Unescaped(s, if s[i] == '\\' then i + 2 else i + 1, p))
  }

  /** The target within a destination.  After the leading space, an angle target is what lies
      between the opening < and the first >; a bare one ends at the first unescaped white space,
      or at the end. */
  predicate IsTarget(content: string, leading: nat, start: nat, end: nat) {
    && leading <= start <= end <= |content|
    && (forall i | 0 <= i < leading :: IsSpace(content[i]))
    && (leading < |content| ==> !IsSpace(content[leading]))
    && if leading < |content| && content[leading] == '<' then
         && start == leading + 1 && end < |content| && content[end] == '>'
         && forall i | leading <= i < end :: content[i] != '>'
       else
         && start == leading
         && (end < |content| ==> IsSpace(content[end]) && Unescaped(content, start, end))
         && forall i | start <= i < end && Unescaped(content, start, i) :: !IsSpace(content[i])
  }

  lemma {:induction false} SpacesEndSays(s: string, i: nat)
    requires i <= |s|
    ensures forall k | i <= k < SpacesEnd(s, i) :: IsSpace(s[k])
    ensures SpacesEnd(s, i) < |s| ==> !IsSpace(s[SpacesEnd(s, i)])
    decreases |s| - i
  {
    if i < |s| && IsSpace(s[i]) {
      SpacesEndSays(s, i + 1);
    }
  }

  lemma {:induction false} IndexOfIsFirst(s: string, c: char, i: nat)
    requires i <= |s|
    ensures IndexOf(s, c, i).Some? ==> forall k | i <= k < IndexOf(s, c, i).value :: s[k] != c
    ensures IndexOf(s, c, i).None? ==> forall k | i <= k < |s| :: s[k] != c
    decreases |s| - i
  {
    if i < |s| && s[i] != c {
      IndexOfIsFirst(s, c, i + 1);
    }
  }

  lemma {:induction false} BareEndSays(s: string, i: nat)
    ensures BareEnd(s, i) < |s| ==> IsSpace(s[BareEnd(s, i)]) && Unescaped(s, i, BareEnd(s, i))
    ensures forall k | i <= k < BareEnd(s, i) && k < |s| && Unescaped(s, i, k) :: !IsSpace(s[k])
    decreases |s| - i
  {
    if i < |s| && (s[i] == '\\' || !IsSpace(s[i])) {
      var next := if s[i] == '\\' then i + 2 else i + 1;
      BareEndSays(s, next);
      forall k | i <= k < BareEnd(s, i) && k < |s| && Unescaped(s, i, k)
        ensures !IsSpace(s[k])
      {
        assert k > i ==> Unescaped(s, next, k);
      }
    }
  }

  /** There is at most one target. */
  lemma OneTarget(content: string, leading: nat, start: nat, end: nat, leading': nat, start': nat, end': nat)
    requires IsTarget(content, leading, start, end) && IsTarget(content, leading', start', end')
    ensures leading == leading' && start == start' && end == end'
  {
    hide Unescaped;
  }

  lemma {:induction false} UnescapedFurtherOn(content: string, k: nat, i: nat, p: nat)
    requires k <= |content|
    ensures Unescaped(content, k + i, k + p) <==> Unescaped(content[k..], i, p)
    decreases p - i
  {
    if i < p && k + i < |content| {
      UnescapedFurtherOn(content, k, if content[k + i] == '\\' then i + 2 else i + 1, p);
    }
  }

  lemma BareTarget(content: string, k: nat)
    requires k == SpacesEnd(content, 0) && (k < |content| ==> content[k] != '<')
    ensures IsTarget(content, k, k, k + Min(BareEnd(content[k..], 0), |content| - k))
  {
    var remainder := content[k..];
    var end := BareEnd(remainder, 0);
    SpacesEndSays(content, 0);
    BareEndSays(remainder, 0);
    forall p | 0 <= p <= |remainder|
      ensures Unescaped(content, k, k + p) <==> Unescaped(remainder, 0, p)
    {
      UnescapedFurtherOn(content, k, 0, p);
    }
    hide Unescaped, BareEnd, SpacesEnd;
    forall i | k <= i < k + Min(end, |remainder|) && Unescaped(content, k, i)
      ensures !IsSpace(content[i])
    {
      assert Unescaped(remainder, 0, i - k) && remainder[i - k] == content[i];
    }
    assert end < |remainder| ==> remainder[end] == content[k + end];
  }

  /** What TargetSpan finds is the target; if it finds nothing, there is none. */
  lemma TargetSpanIsTarget(content: string)
    ensures
      var k := SpacesEnd(content, 0);
      var span := TargetSpan(content[k..]);
      if span.Some? then IsTarget(content, k, k + span.value.0, k + span.value.1)
      else forall leading: nat, start: nat, end: nat :: !IsTarget(content, leading, start, end)
  {
    var k := SpacesEnd(content, 0);
    var remainder := content[k..];
    SpacesEndSays(content, 0);
    if k < |content| && content[k] == '<' {
      IndexOfIsFirst(remainder, '>', 0);
      AngleTarget(content, k);
    } else {
      BareTarget(content, k);
    }
  }

  lemma AngleTarget(content: string, k: nat)
    requires k == SpacesEnd(content, 0) && k < |content| && content[k] == '<'
    ensures var at := IndexOf(content[k..], '>', 0);
      if at.Some? then IsTarget(content, k, k + 1, k + at.value)
      else forall leading: nat, start: nat, end: nat :: !IsTarget(content, leading, start, end)
  {
    var remainder := content[k..];
    SpacesEndSays(content, 0);
    IndexOfIsFirst(remainder, '>', 0);
    var at := IndexOf(remainder, '>', 0);
    hide Unescaped, SpacesEnd, IndexOf;
    assert forall i | k <= i < |content| :: content[i] == remainder[i - k];
    if at.None? {
      forall leading: nat, start: nat, end: nat
        ensures !IsTarget(content, leading, start, end)
      {
        assert leading == k ==> !IsTarget(content, leading, start, end);
      }
    }
  }

  /** The destination with its target projected, and everything else as it is. */
  predicate Retargeted(content: string, start: nat, end: nat, root: Option<string>, result: string)
    requires start <= end <= |content|
  {
    result == content[..start] + ProjectReference(content[start..end], root) + content[end..]
  }

  lemma Regroup(content: string, k: nat, start: nat, end: nat, next: string)
    requires k <= |content| && start <= end <= |content| - k
    ensures content[k..][start..end] == content[k + start..k + end]
    ensures content[..k] + (content[k..][..start] + next + content[k..][end..])
            == content[..k + start] + next + content[k + end..]
  {
    var before, after := content[k..][..start], content[k..][end..];
    Reassociate(content[..k], before, next, after);
    assert content[..k] + before == content[..k + start] && after == content[k + end..];
  }

  lemma ProjectedInPlace(content: string, k: nat, start: nat, end: nat, root: Option<string>)
    requires k == SpacesEnd(content, 0) && TargetSpan(content[k..]) == Some((start, end))
    ensures Retargeted(content, k + start, k + end, root, ProjectDestination(content, root))
  {
    hide ProjectReference, SpacesEnd, TargetSpan;
    Regroup(content, k, start, end, ProjectReference(content[k..][start..end], root));
  }

  lemma NoTargetNoChange(content: string, root: Option<string>)
    requires TargetSpan(content[SpacesEnd(content, 0)..]).None?
    ensures ProjectDestination(content, root) == content
  {
    hide SpacesEnd, TargetSpan, ProjectReference;
    var k := SpacesEnd(content, 0);
    assert content == content[..k] + content[k..];
  }

  /** A destination with a target changes in the target alone, as ReferenceExactly says; one
      without, an angle bracket that never closes, does not change. */
  lemma OnlyTheTargetChanges(content: string, root: Option<string>)
    ensures forall leading: nat, start: nat, end: nat | IsTarget(content, leading, start, end) ::
              Retargeted(content, start, end, root, ProjectDestination(content, root))
    ensures (forall leading: nat, start: nat, end: nat :: !IsTarget(content, leading, start, end)) ==>
              ProjectDestination(content, root) == content
  {
    TargetSpanIsTarget(content);
    hide *;
    var k := SpacesEnd(content, 0);
    var span := TargetSpan(content[k..]);
    if span.Some? {
      var (start, end) := span.value;
      ProjectedInPlace(content, k, start, end, root);
      forall leading: nat, start': nat, end': nat | IsTarget(content, leading, start', end')
        ensures start' == k + start && end' == k + end
      {
        OneTarget(content, k, k + start, k + end, leading, start', end');
      }
    } else {
      NoTargetNoChange(content, root);
    }
  }
}
