/** POSIX paths of a remote workspace: normalising them and expressing them under a root. */
module RemotePaths {
  import opened Wrappers
  import opened UriText
  import ResourceUri

  /** A path component that normalising keeps. */
  predicate Proper(s: string) {
    s != "" && s != "." && s != ".." && '/' !in s
  }

  /** The components of an absolute path, dots resolved; the root is its own parent. */
  function Walk(parts: seq<string>, out: seq<string>): seq<string> {
    if parts == [] then out
    else
      var next :=
        if parts[0] == "" || parts[0] == "." then out
        else if parts[0] == ".." then (if out == [] then [] else out[..|out| - 1])
        else out + [parts[0]];
      Walk(parts[1..], next)
  }

  function Components(path: string): seq<string> {
    Walk(Split(path, '/'), [])
  }

  predicate IsAbsolute(path: string) {
    path != "" && path[0] == '/'
  }

  function Absolute(root: string, candidate: string): seq<string> {
    if IsAbsolute(candidate) then Components(candidate) else Components(root + "/" + candidate)
  }

  /** Strictly below the root, and within the limits on a resource path. */
  predicate Inside(root: string, candidate: string) {
    && candidate != "" && IsAbsolute(root) && '\0' !in root && '\0' !in candidate
    && Components(root) < Absolute(root, candidate)
    && ResourceUri.ValidRelativePath(Joined(Absolute(root, candidate)[|Components(root)|..], '/'))
  }

  /** posix.relative, by components: up from one, down to the other. */
  function Relative(from: seq<string>, to: seq<string>): seq<string> {
    if from == [] then to
    else if to != [] && from[0] == to[0] then Relative(from[1..], to[1..])
    else seq(|from|, _ => "..") + to
  }

  datatype PathError = InvalidConfig | PathOutsideRoot | ProtocolMismatch

  function WorkspaceRelativePath(root: string, candidate: string): Result<string, PathError> {
    if root == "" || candidate == "" || '\0' in root || '\0' in candidate then Err(PathOutsideRoot)
    else if !IsAbsolute(root) then Err(InvalidConfig)
    else
      var child := Relative(Components(root), Absolute(root, candidate));
      if child == [] || child[0] == ".." then Err(PathOutsideRoot)
      else if !ResourceUri.ValidRelativePath(Joined(child, '/')) then Err(ProtocolMismatch)
      else Ok(Joined(child, '/'))
  }

  // ------------------------------------------------------------------ lemmas

  lemma {:induction false} WalkTwice(a: seq<string>, b: seq<string>, out: seq<string>)
    ensures Walk(a + b, out) == Walk(b, Walk(a, out))
  {
    if a == [] {
      assert a + b == b;
    } else {
      assert (a + b)[1..] == a[1..] + b;
      WalkTwice(a[1..], b,
        if a[0] == "" || a[0] == "." then out
        else if a[0] == ".." then (if out == [] then [] else out[..|out| - 1])
        else out + [a[0]]);
    }
  }

  lemma {:induction false} WalkKeepsProper(parts: seq<string>, out: seq<string>)
    requires forall p | p in parts :: '/' !in p
    requires forall p | p in out :: Proper(p)
    ensures forall p | p in Walk(parts, out) :: Proper(p)
  {
    if parts != [] {
      assert parts[0] in parts;
      WalkKeepsProper(parts[1..],
        if parts[0] == "" || parts[0] == "." then out
        else if parts[0] == ".." then (if out == [] then [] else out[..|out| - 1])
        else out + [parts[0]]);
    }
  }

  lemma {:induction false} WalkProper(parts: seq<string>, out: seq<string>)
    requires forall p | p in parts :: Proper(p)
    ensures Walk(parts, out) == out + parts
  {
    if parts == [] {
      assert out + parts == out;
    } else {
      assert parts[0] in parts;
      WalkProper(parts[1..], out + [parts[0]]);
      assert (out + [parts[0]]) + parts[1..] == out + parts;
    }
  }

  lemma ComponentsAreProper(path: string)
    ensures forall p | p in Components(path) :: Proper(p)
  {
    JoinedOfSplit(path, '/');
    WalkKeepsProper(Split(path, '/'), []);
  }

  lemma AbsoluteIsProper(root: string, candidate: string)
    ensures forall p | p in Absolute(root, candidate) :: Proper(p)
  {
    ComponentsAreProper(candidate);
    ComponentsAreProper(root + "/" + candidate);
  }

  /** Going down from the root by proper components ends below it. */
  lemma ComponentsBelow(root: string, rest: seq<string>)
    requires rest != [] && forall p | p in rest :: Proper(p)
    ensures Components(root + "/" + Joined(rest, '/')) == Components(root) + rest
  {
    SplitOfConcat(root, Joined(rest, '/'), '/');
    SplitOfJoined(rest, '/');
    WalkTwice(Split(root, '/'), rest, []);
    WalkProper(rest, Components(root));
  }

  lemma {:induction false} RelativeExactly(from: seq<string>, to: seq<string>)
    requires forall p | p in to :: Proper(p)
    ensures from <= to ==> Relative(from, to) == to[|from|..]
    ensures !(from <= to) ==> Relative(from, to) != [] && Relative(from, to)[0] == ".."
  {
    if from != [] && to != [] && from[0] == to[0] {
      RelativeExactly(from[1..], to[1..]);
      assert from[1..] <= to[1..] <==> from <= to by {
        assert from == [from[0]] + from[1..] && to == [to[0]] + to[1..];
      }
    }
  }

  /** A path is expressed under the root exactly when it lies strictly inside it; what comes out
      then leads from the root to the same place, and holds no dots. */
  lemma RelativePathExactly(root: string, candidate: string)
    ensures WorkspaceRelativePath(root, candidate).Ok? <==> Inside(root, candidate)
    ensures WorkspaceRelativePath(root, candidate).Ok? ==>
              var child := WorkspaceRelativePath(root, candidate).value;
              && !IsAbsolute(child) && (forall p | p in Split(child, '/') :: Proper(p))
              && Components(root + "/" + child) == Absolute(root, candidate)
  {
    var from, to := Components(root), Absolute(root, candidate);
    AbsoluteIsProper(root, candidate);
    RelativeExactly(from, to);
    if from <= to && from != to {
      var rest := to[|from|..];
      assert rest[0] in to && (forall p | p in rest :: p in to);
      ComponentsBelow(root, rest);
      SplitOfJoined(rest, '/');
      assert Joined(rest, '/')[0] == rest[0][0];
      assert rest[0][0] in rest[0];
    }
  }

  // ------------------------------------------------------------------ what normalising does

  /** What is left of a path going up from it; the root is its own parent. */
  function Parent(components: seq<string>): seq<string> {
    if components == [] then [] else components[..|components| - 1]
  }

  lemma OneStep(path: string, part: string)
    requires '/' !in part
    ensures Components(path + "/" + part)
            == if part == "" || part == "." then Components(path)
               else if part == ".." then Parent(Components(path))
               else Components(path) + [part]
  {
    SplitOfConcat(path, part, '/');
    SplitOfPart(part, '/');
    WalkTwice(Split(path, '/'), [part], []);
  }

  /** Normalising, one component after the other, from the root on: a name goes down, two dots go
      up, one dot and a doubled slash stay, and nothing goes above the root. */
  lemma NormalisingExactly(path: string, name: string)
    requires Proper(name)
    ensures Components("/") == [] && Components("") == []
    ensures Components(path + "/" + name) == Components(path) + [name]
    ensures Components(path + "/" + name + "/" + "..") == Components(path)
    ensures Components(path + "/" + "..") == Parent(Components(path))
    ensures Components(path + "/" + ".") == Components(path)
    ensures Components(path + "/" + "") == Components(path)
  {
    OneStep(path, name);
    OneStep(path + "/" + name, "..");
    OneStep(path, "..");
    OneStep(path, ".");
    OneStep(path, "");
    assert Components("") == [];
    OneStep("", "");
    assert "" + "/" + "" == "/";
  }

  /** Going up out of the root and down by another name is refused. */
  lemma EscapesAreRefused(root: string, last: string, name: string)
    requires IsAbsolute(root) && '\0' !in root && '\0' !in name && Proper(name)
    requires Components(root) != [] && Components(root)[|Components(root)| - 1] == last && name != last
    ensures WorkspaceRelativePath(root, root + "/" + ".." + "/" + name) == Err(PathOutsideRoot)
  {
    var candidate := root + "/" + ".." + "/" + name;
    OneStep(root, "..");
    OneStep(root + "/" + "..", name);
    var from, to := Components(root), Components(candidate);
    assert to == from[..|from| - 1] + [name];
    assert |from| == |to| && from[|from| - 1] != to[|from| - 1];
    AbsoluteIsProper(root, candidate);
    RelativeExactly(from, to);
    NulFreeCandidate(root, name);
  }

  lemma NulFreeCandidate(root: string, name: string)
    requires IsAbsolute(root) && '\0' !in root && '\0' !in name
    ensures var candidate := root + "/" + ".." + "/" + name;
      candidate != "" && IsAbsolute(candidate) && '\0' !in candidate
  {
    assert (root + "/" + ".." + "/" + name)[0] == root[0];
  }

  /** Going down and up again on the way is no detour. */
  lemma DetoursVanish(root: string, way: string, name: string)
    requires IsAbsolute(root) && Proper(way) && Proper(name) && '\0' !in root && '\0' !in way && '\0' !in name
    requires ResourceUri.ValidRelativePath(name)
    ensures WorkspaceRelativePath(root, root + "/" + way + "/" + ".." + "/" + name) == Ok(name)
  {
    var candidate := root + "/" + way + "/" + ".." + "/" + name;
    NormalisingExactly(root, way);
    OneStep(root + "/" + way + "/" + "..", name);
    var from, to := Components(root), Components(candidate);
    AbsoluteIsProper(root, candidate);
    RelativeExactly(from, to);
    assert to == from + [name] && to[|from|..] == [name];
    assert candidate[0] == root[0];
    NulFreeDetour(root, way, name);
  }

  lemma NulFreeDetour(root: string, way: string, name: string)
    requires '\0' !in root && '\0' !in way && '\0' !in name
    ensures '\0' !in root + "/" + way + "/" + ".." + "/" + name
  {
  }

  /** Which error, when a path is refused. */
  lemma RefusalsExactly(root: string, candidate: string)
    ensures
      var empty := root == "" || candidate == "" || '\0' in root || '\0' in candidate;
      var result := WorkspaceRelativePath(root, candidate);
      && (result == Err(InvalidConfig) <==> !empty && root[0] != '/')
      && (result == Err(PathOutsideRoot) <==>
            empty || (root[0] == '/' && !(Components(root) < Absolute(root, candidate))))
      && (result == Err(ProtocolMismatch) <==>
            && !empty && root[0] == '/' && Components(root) < Absolute(root, candidate)
            && !ResourceUri.ValidRelativePath(Joined(Absolute(root, candidate)[|Components(root)|..], '/')))
  {
    var from, to := Components(root), Absolute(root, candidate);
    AbsoluteIsProper(root, candidate);
    RelativeExactly(from, to);
    if from < to {
      assert to[|from|] in to && Proper(to[|from|]);
      assert to[|from|..][0] == to[|from|];
    } else if from == to {
      assert to[|from|..] == [];
    }
  }
}
