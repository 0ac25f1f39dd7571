/**
 Confining a customer's path to a website's root (backend/src/files/path-confinement.ts).

 The code compares strings; these lemmas say what its comparisons mean for the names the paths are made of.
 Percent-decoding is a parameter: any function that may fail.
 */
module PathConfinement {
  import opened Options
  import opened Strings

  const SLASH := '/'
  const MAX_PATH_LENGTH := 4096
  const MAX_SEGMENT_LENGTH := 255

  const DENIED_NAMES: set<string> := {
    ".ssh", ".bash_history", ".git", ".env", ".npmrc", ".aws", "authorized_keys", "id_rsa", "id_ed25519" }

  // ---------- node:path/posix ----------

  predicate IsAbsolute(path: string) {
    path != [] && path[0] == SLASH
  }

  predicate EndsWithSlash(path: string) {
    path != [] && path[|path| - 1] == SLASH
  }

  /** The names left of `parts` after those of `stack`: empty ones and `.` are dropped, `..` drops the one before. */
  function Walk(stack: seq<string>, parts: seq<string>): seq<string>
    decreases |parts|
  {
    if parts == [] then stack
    else
      var next := if parts[0] == "" || parts[0] == "." then stack
                  else if parts[0] == ".." then (if stack == [] then stack else stack[..|stack| - 1])
                  else stack + [parts[0]];
      Walk(next, parts[1..])
  }

  /** The names an absolute path consists of. */
  function Segments(path: string): seq<string> {
    Walk([], Split(path, SLASH))
  }

  function Render(segments: seq<string>, trailing: bool): string {
    if segments == [] then "/" else "/" + Join(segments, SLASH) + if trailing then "/" else ""
  }

  /** The names left of a relative path: a `..` that has nothing to drop stays. */
  function WalkUp(stack: seq<string>, parts: seq<string>): seq<string>
    decreases |parts|
  {
    if parts == [] then stack
    else
      var next := if parts[0] == "" || parts[0] == "." then stack
                  else if parts[0] == ".." && stack != [] && stack[|stack| - 1] != ".." then stack[..|stack| - 1]
                  else stack + [parts[0]];
      WalkUp(next, parts[1..])
  }

  /** The names a relative path consists of. */
  function Steps(path: string): seq<string> {
    WalkUp([], Split(path, SLASH))
  }

  function RenderRelative(steps: seq<string>, trailing: bool): string {
    Join(if steps == [] then ["."] else steps, SLASH) + if trailing then "/" else ""
  }

  /** `posix.normalize`. */
  function Normalize(path: string): string {
    if IsAbsolute(path) then Render(Segments(path), EndsWithSlash(path))
    else RenderRelative(Steps(path), EndsWithSlash(path))
  }

  /** `posix.join` of an absolute path and another. */
  function JoinPaths(a: string, b: string): string {
    Normalize(if b == "" then a else a + "/" + b)
  }

  function StripTrailing(s: string): string {
    if EndsWithSlash(s) then StripTrailing(s[..|s| - 1]) else s
  }

  function StripLeading(s: string): string {
    if s != [] && s[0] == SLASH then StripLeading(s[1..]) else s
  }

  // ---------- The code ----------

  datatype Reason =
    | RootNotAbsolute | TooLong | Undecodable | Invalid | HasDotDot | NameTooLong | NameDenied | Outside

  datatype PathResult = Accepted(absolutePath: string, relativePath: string) | Rejected(reason: Reason)

  predicate IsControl(c: char) {
    c as int <= 0x1F || c as int == 0x7F
  }

  predicate IsHex(c: char) {
    '0' <= c <= '9' || 'a' <= c <= 'f' || 'A' <= c <= 'F'
  }

  predicate HasEscape(s: string) {
    exists i :: 0 <= i < |s| - 2 && s[i] == '%' && IsHex(s[i + 1]) && IsHex(s[i + 2])
  }

  predicate OnlyDots(s: string) {
    |s| >= 2 && forall c :: c in s ==> c == '.'
  }

  function NormalisedRoot(root: string): string {
    var stripped := StripTrailing(Normalize(root));
    if stripped == "" then "/" else stripped
  }

  /** The first thing wrong with a name, if anything is. */
  function SegmentProblem(segment: string): Option<Reason> {
    if |segment| > MAX_SEGMENT_LENGTH then Some(NameTooLong)
    else if ToLowerCase(segment) in DENIED_NAMES then Some(NameDenied)
    else if OnlyDots(segment) then Some(Invalid)
    else None
  }

  function FirstProblem(segments: seq<string>): (r: Option<Reason>)
    ensures r.None? <==> forall s :: s in segments ==> SegmentProblem(s).None?
  {
    if segments == [] then None
    else if SegmentProblem(segments[0]).Some? then SegmentProblem(segments[0])
    else FirstProblem(segments[1..])
  }

  /** The boundary test of both functions: the root itself, or below it. */
  predicate IsAtOrBelow(normalisedRoot: string, path: string) {
    path == normalisedRoot || normalisedRoot + "/" <= path
  }

  function ResolveWithinRoot(root: string, userPath: string, decode: string -> Option<string>): PathResult {
    if !IsAbsolute(root) then Rejected(RootNotAbsolute)
    else if |userPath| > MAX_PATH_LENGTH then Rejected(TooLong)
    else if '\0' in userPath then Rejected(Invalid)
    else if decode(userPath).None? then Rejected(Undecodable)
    else
      var decoded := decode(userPath).value;
      if HasEscape(decoded) || (exists c :: c in decoded && IsControl(c)) || '\\' in decoded then Rejected(Invalid)
      else
        var rootRelative := StripLeading(decoded);
        var rawSegments := Split(rootRelative, SLASH);
        if ".." in rawSegments then Rejected(HasDotDot)
        else if FirstProblem(rawSegments).Some? then Rejected(FirstProblem(rawSegments).value)
        else
          var normalisedRoot := NormalisedRoot(root);
          var joined := Normalize(JoinPaths(normalisedRoot, rootRelative));
          if !IsAtOrBelow(normalisedRoot, joined) then Rejected(Outside)
          else Accepted(joined, if joined == normalisedRoot then "/" else joined[|normalisedRoot|..])
  }

  predicate IsRealPathInsideRoot(root: string, realPath: string) {
    IsAtOrBelow(NormalisedRoot(root), Normalize(realPath))
  }

  // ---------- Names ----------

  /** A name that stands for itself in a path. */
  predicate IsName(s: string) {
    s != "" && s != "." && s != ".." && SLASH !in s
  }

  predicate AreNames(ss: seq<string>) {
    forall s :: s in ss ==> IsName(s)
  }

  /** What lies between two slashes of a normalised path: `..` may, at the start of a relative one. */
  predicate AreParts(ss: seq<string>) {
    forall s :: s in ss ==> s != "" && SLASH !in s
  }

  function Kept(parts: seq<string>): seq<string> {
    if parts == [] then []
    else (if parts[0] == "" || parts[0] == "." then [] else [parts[0]]) + Kept(parts[1..])
  }

  lemma {:induction false} WalkIsNames(stack: seq<string>, parts: seq<string>)
    requires AreNames(stack) && forall p :: p in parts ==> SLASH !in p
    ensures AreNames(Walk(stack, parts))
    decreases |parts|
  {
    if parts != [] {
      var next := if parts[0] == "" || parts[0] == "." then stack
                  else if parts[0] == ".." then (if stack == [] then stack else stack[..|stack| - 1])
                  else stack + [parts[0]];
      assert parts[0] in parts;
      WalkIsNames(next, parts[1..]);
    }
  }

  lemma {:induction false} WalkInTwo(stack: seq<string>, a: seq<string>, b: seq<string>)
    ensures Walk(stack, a + b) == Walk(Walk(stack, a), b)
    decreases |a|
  {
    if a == [] {
      assert a + b == b;
    } else {
      assert (a + b)[1..] == a[1..] + b && (a + b)[0] == a[0];
      var next := if a[0] == "" || a[0] == "." then stack
                  else if a[0] == ".." then (if stack == [] then stack else stack[..|stack| - 1])
                  else stack + [a[0]];
      WalkInTwo(next, a[1..], b);
    }
  }

  lemma {:induction false} WalkWithoutDotDot(stack: seq<string>, parts: seq<string>)
    requires ".." !in parts
    ensures Walk(stack, parts) == stack + Kept(parts)
    decreases |parts|
  {
    if parts != [] {
      assert parts[0] in parts;
      WalkWithoutDotDot(if parts[0] == "" || parts[0] == "." then stack else stack + [parts[0]], parts[1..]);
    }
  }

  lemma {:induction false} KeptNames(parts: seq<string>)
    requires AreNames(parts)
    ensures Kept(parts) == parts
  {
    if parts != [] {
      assert parts[0] in parts;
      KeptNames(parts[1..]);
    }
  }

  lemma {:induction false} KeptIs(parts: seq<string>)
    ensures forall s :: s in Kept(parts) <==> s in parts && s != "" && s != "."
  {
    if parts != [] {
      KeptIs(parts[1..]);
    }
  }

  lemma SegmentsAreNames(path: string)
    ensures AreNames(Segments(path))
  {
    WalkIsNames([], Split(path, SLASH));
  }

  /** What one more name does to a path: `..` goes up, `.` and nothing stay, anything else goes down. */
  lemma OneStepFurther(path: string, part: string)
    requires IsAbsolute(path) && SLASH !in part
    ensures Segments("/") == []
    ensures var names := Segments(path);
            Segments(path + "/" + part)
            == if part == "" || part == "." then names
               else if part == ".." then (if names == [] then [] else names[..|names| - 1])
               else names + [part]
  {
    hide Split;
    var slash := "/";
    assert path + "/" + part == path + [SLASH] + part;
    SplitOfConcat(path, part, SLASH);
    SplitOfPiece(part, SLASH);
    WalkInTwo([], Split(path, SLASH), [part]);
    assert [part][1..] == [];
    RootHasNoNames();
  }

  lemma RootHasNoNames()
    ensures Segments("/") == []
  {
    hide Segments;
    SegmentsOfRender([], false);
  }

  lemma {:induction false} WalkUpInTwo(stack: seq<string>, a: seq<string>, b: seq<string>)
    ensures WalkUp(stack, a + b) == WalkUp(WalkUp(stack, a), b)
    decreases |a|
  {
    if a == [] {
      assert a + b == b;
    } else {
      assert (a + b)[1..] == a[1..] + b && (a + b)[0] == a[0];
      var next := if a[0] == "" || a[0] == "." then stack
                  else if a[0] == ".." && stack != [] && stack[|stack| - 1] != ".." then stack[..|stack| - 1]
                  else stack + [a[0]];
      WalkUpInTwo(next, a[1..], b);
    }
  }

  /** The same of a relative path, where `..` goes up beyond the start when there is nothing left to leave. */
  lemma OneStepFurtherFrom(path: string, part: string)
    requires !IsAbsolute(path) && SLASH !in part
    ensures Steps("") == []
    ensures var steps := Steps(path);
            Steps(path + "/" + part)
            == if part == "" || part == "." then steps
               else if part == ".." && steps != [] && steps[|steps| - 1] != ".." then steps[..|steps| - 1]
               else steps + [part]
  {
    hide Split;
    assert path + "/" + part == path + [SLASH] + part;
    SplitOfConcat(path, part, SLASH);
    SplitOfPiece(part, SLASH);
    WalkUpInTwo([], Split(path, SLASH), [part]);
    assert [part][1..] == [];
    SplitOfPiece("", SLASH);
    assert [""][1..] == [];
  }

  // ---------- Rendered paths ----------

  lemma RestIsParts(names: seq<string>)
    requires AreParts(names) && names != []
    ensures AreParts(names[1..])
  {
    forall s | s in names[1..]
      ensures s in names
    {
    }
  }

  lemma {:induction false} JoinEndsInName(names: seq<string>)
    requires AreParts(names) && names != []
    ensures Join(names, SLASH) != "" && !EndsWithSlash(Join(names, SLASH)) && Join(names, SLASH)[0] != SLASH
  {
    assert names[0] in names;
    if |names| > 1 {
      RestIsParts(names);
      JoinEndsInName(names[1..]);
    }
  }

  lemma {:induction false} JoinOfConcat(a: seq<string>, b: seq<string>)
    requires a != [] && b != []
    ensures Join(a + b, SLASH) == Join(a, SLASH) + "/" + Join(b, SLASH)
  {
    if |a| == 1 {
      assert (a + b)[1..] == b;
    } else {
      JoinOfConcat(a[1..], b);
      assert (a + b)[1..] == a[1..] + b;
    }
  }

  /** How a rendered path splits. */
  lemma SplitOfRender(names: seq<string>, trailing: bool)
    requires AreParts(names) && names != []
    ensures Split(Render(names, trailing), SLASH) == [""] + names + if trailing then [""] else []
  {
    hide Split, Join;
    var body := Join(names, SLASH);
    SplitOfJoin(names, SLASH);
    SplitOfPiece("", SLASH);
    SplitOfConcat("", body, SLASH);
    var path := "/" + body;
    assert "" + ['/'] + body == path;
    if trailing {
      SplitOfConcat(path, "", SLASH);
      assert path + ['/'] + "" == path + "/" == Render(names, true);
    } else {
      assert Render(names, false) == path;
    }
  }

  lemma SegmentsOfRender(names: seq<string>, trailing: bool)
    requires AreNames(names)
    ensures Segments(Render(names, trailing)) == names
    ensures Normalize(Render(names, trailing)) == Render(names, trailing)
  {
    hide Split, Join;
    if names == [] {
      SplitOfPiece("", SLASH);
      SplitOfConcat("", "", SLASH);
      assert "" + ['/'] + "" == "/";
      WalkWithoutDotDot([], ["", ""]);
      assert Kept(["", ""]) == [] by { assert ["", ""][1..] == [""] && [""][1..] == []; }
    } else {
      var parts := [""] + names + if trailing then [""] else [];
      SplitOfRender(names, trailing);
      WalkWithoutDotDot([], parts);
      KeptAround(names, trailing);
      JoinEndsInName(names);
    }
  }

  lemma KeptAround(names: seq<string>, trailing: bool)
    requires AreNames(names)
    ensures Kept([""] + names + if trailing then [""] else []) == names
  {
    hide Kept;
    var first := [""];
    var tail := if trailing then [""] else [];
    KeptEmpty();
    KeptNothing();
    KeptConcat(first + names, tail);
    KeptConcat(first, names);
    KeptNames(names);
  }

  lemma KeptNothing()
    ensures Kept([]) == []
  {
  }

  lemma KeptStep(parts: seq<string>)
    requires parts != []
    ensures Kept(parts) == (if parts[0] == "" || parts[0] == "." then [] else [parts[0]]) + Kept(parts[1..])
  {
  }

  lemma {:induction false} KeptConcat(a: seq<string>, b: seq<string>)
    ensures Kept(a + b) == Kept(a) + Kept(b)
    decreases |a|
  {
    hide Kept;
    if a == [] {
      assert a + b == b;
      KeptNothing();
    } else {
      KeptConcat(a[1..], b);
      KeptStep(a);
      KeptStep(a + b);
      assert (a + b)[1..] == a[1..] + b && (a + b)[0] == a[0];
    }
  }

  // ---------- Roots and the boundary ----------

  lemma NamesAreParts(names: seq<string>)
    requires AreNames(names)
    ensures AreParts(names)
  {
  }

  lemma NormalisedRootIs(root: string)
    requires IsAbsolute(root)
    ensures NormalisedRoot(root) == Render(Segments(root), false) && AreNames(Segments(root))
  {
    hide Segments, Join, AreNames;
    SegmentsAreNames(root);
    var names := Segments(root);
    NamesAreParts(names);
    if names != [] {
      JoinEndsInName(names);
      var body := "/" + Join(names, SLASH);
      assert StripTrailing(body) == body;
      if EndsWithSlash(root) {
        assert (body + "/")[..|body|] == body;
      }
    } else {
      assert StripTrailing("/") == "" by { assert "/"[..0] == ""; }
    }
  }

  /** The string test is a test of names: a path is at or below a root exactly when its names begin with the
      root's. The exception is the root `/`, below which nothing is found. */
  lemma BoundaryIs(names: seq<string>, path: seq<string>, trailing: bool)
    requires AreParts(names) && AreParts(path)
    ensures IsAtOrBelow(Render(names, false), Render(path, trailing))
            <==> if names == [] then path == [] else names <= path
  {
    hide Join, Split, AreParts;
    if names == [] {
      if path != [] {
        JoinEndsInName(path);
        assert Render(path, trailing)[1] == Join(path, SLASH)[0];
      }
    } else if names <= path {
      BelowByNames(names, path, trailing);
    } else if IsAtOrBelow(Render(names, false), Render(path, trailing)) {
      NamesOfBelow(names, path, trailing);
    }
  }

  lemma BelowByNames(names: seq<string>, path: seq<string>, trailing: bool)
    requires AreParts(path) && names != [] && names <= path
    ensures IsAtOrBelow(Render(names, false), Render(path, trailing))
  {
    hide Join;
    var root := "/" + Join(names, SLASH);
    assert Render(names, false) == root;
    if names == path {
      assert Render(path, true) == root + "/";
    } else {
      var rest := path[|names|..];
      JoinOfConcat(names, rest);
      assert path == names + rest;
      var tail := Join(rest, SLASH) + if trailing then "/" else "";
      assert Render(path, trailing) == root + "/" + tail;
    }
  }

  lemma NamesOfBelow(names: seq<string>, path: seq<string>, trailing: bool)
    requires AreParts(names) && AreParts(path) && names != []
    requires IsAtOrBelow(Render(names, false), Render(path, trailing))
    ensures names <= path
  {
    hide Join, Split;
    var root, p := Render(names, false), Render(path, trailing);
    SplitOfRender(names, false);
    var parts := if path == [] then ["", ""] else [""] + path + if trailing then [""] else [];
    assert Split(p, SLASH) == parts by {
      if path == [] {
        SplitOfPiece("", SLASH);
        SplitOfConcat("", "", SLASH);
        assert "" + ['/'] + "" == "/";
      } else {
        SplitOfRender(path, trailing);
      }
    }
    if p != root {
      var rest := p[|root| + 1..];
      assert p == root + ['/'] + rest;
      SplitOfConcat(root, rest, SLASH);
    }
    assert [""] + names <= parts;
    forall i | 0 <= i < |names|
      ensures i < |path| && names[i] == path[i]
    {
      assert ([""] + names)[i + 1] == parts[i + 1];
      assert names[i] in names;
    }
    assert |names| <= |path| by { assert names[|names| - 1] in names; }
  }

  // ---------- Relative paths ----------

  lemma {:induction false} WalkUpIsParts(stack: seq<string>, parts: seq<string>)
    requires AreParts(stack) && "." !in stack && forall p :: p in parts ==> SLASH !in p
    ensures AreParts(WalkUp(stack, parts)) && "." !in WalkUp(stack, parts)
    decreases |parts|
  {
    if parts != [] {
      assert parts[0] in parts;
      var next := if parts[0] == "" || parts[0] == "." then stack
                  else if parts[0] == ".." && stack != [] && stack[|stack| - 1] != ".." then stack[..|stack| - 1]
                  else stack + [parts[0]];
      WalkUpIsParts(next, parts[1..]);
    }
  }

  function Shown(steps: seq<string>): seq<string> {
    if steps == [] then ["."] else steps
  }

  lemma ShownAreParts(path: string)
    ensures AreParts(Shown(Steps(path))) && Shown(Steps(path)) != [] && "." !in Steps(path)
  {
    hide Split;
    WalkUpIsParts([], Split(path, SLASH));
  }

  /** A relative path comes out as the names shown for it, and its first character is not a slash. */
  lemma RelativeIs(path: string)
    requires !IsAbsolute(path)
    ensures var shown := Shown(Steps(path));
            "/" + Normalize(path) == Render(shown, EndsWithSlash(path))
            && "/" + NormalisedRoot(path) == Render(shown, false)
            && Normalize(path) != "" && Normalize(path)[0] != SLASH
            && NormalisedRoot(path) != "" && NormalisedRoot(path)[0] != SLASH
  {
    hide Join, Steps;
    ShownAreParts(path);
    var body, slash := Join(Shown(Steps(path)), SLASH), "/";
    JoinEndsInName(Shown(Steps(path)));
    assert StripTrailing(body) == body;
    assert (body + slash)[..|body|] == body && StripTrailing(body + slash) == body;
    assert slash + (body + slash) == slash + body + slash;
  }

  lemma BelowWithSlash(top: string, path: string)
    ensures IsAtOrBelow(top, path) <==> IsAtOrBelow("/" + top, "/" + path)
  {
    if IsAtOrBelow("/" + top, "/" + path) {
      assert ("/" + path)[1..] == path && ("/" + top)[1..] == top && ("/" + top + "/")[1..] == top + "/";
    }
  }

  lemma ShownPrefix(r: seq<string>, p: seq<string>)
    requires "." !in r && "." !in p
    ensures Shown(r) <= Shown(p) <==> if r == [] then p == [] else r <= p
  {
    if Shown(r) <= Shown(p) {
      assert Shown(r)[0] == Shown(p)[0];
    }
  }

  /** The names of any path. */
  function NamesOf(path: string): seq<string> {
    if IsAbsolute(path) then Segments(path) else Steps(path)
  }

  /** The check on real paths, for every root and every path, relative ones too. */
  lemma InsideIff(root: string, realPath: string)
    ensures IsRealPathInsideRoot(root, realPath)
            <==> IsAbsolute(root) == IsAbsolute(realPath)
                 && if NamesOf(root) == [] then NamesOf(realPath) == [] else NamesOf(root) <= NamesOf(realPath)
  {
    hide Segments, Steps, Render, RenderRelative, NormalisedRoot, AreParts, AreNames;
    var r, p, trailing := NamesOf(root), NamesOf(realPath), EndsWithSlash(realPath);
    if IsAbsolute(root) && IsAbsolute(realPath) {
      AbsoluteParts(root);
      AbsoluteParts(realPath);
      BoundaryIs(r, p, trailing);
    } else if !IsAbsolute(root) && !IsAbsolute(realPath) {
      hide IsAtOrBelow, Normalize, Shown;
      RelativeIs(root);
      RelativeIs(realPath);
      ShownAreParts(root);
      ShownAreParts(realPath);
      BelowWithSlash(NormalisedRoot(root), Normalize(realPath));
      BoundaryIs(Shown(r), Shown(p), trailing);
      ShownPrefix(r, p);
    } else if IsAbsolute(root) {
      AbsoluteParts(root);
      RelativeIs(realPath);
      RenderIsAbsolute(r, false);
    } else {
      AbsoluteParts(realPath);
      RelativeIs(root);
      RenderIsAbsolute(p, trailing);
    }
  }

  lemma AbsoluteParts(path: string)
    requires IsAbsolute(path)
    ensures AreParts(Segments(path))
    ensures NormalisedRoot(path) == Render(Segments(path), false)
  {
    hide Segments, Render, NormalisedRoot;
    SegmentsAreNames(path);
    NamesAreParts(Segments(path));
    NormalisedRootIs(path);
  }

  // ---------- Accepted paths ----------

  /** What the joined path consists of. */
  lemma JoinedIs(root: string, rel: string)
    requires IsAbsolute(root) && ".." !in Split(rel, SLASH)
    ensures var names := Segments(root) + Kept(Split(rel, SLASH));
            AreNames(names)
            && Normalize(JoinPaths(NormalisedRoot(root), rel)) == Render(names, EndsWithSlash(rel))
  {
    hide Split, Join, Render, NormalisedRoot, Kept;
    var r := NormalisedRoot(root);
    var names := Segments(root) + Kept(Split(rel, SLASH));
    NormalisedRootIs(root);
    RenderIsAbsolute(Segments(root), false);
    SegmentsOfRender(Segments(root), false);
    if rel == "" {
      SplitOfPiece("", SLASH);
      KeptEmpty();
      assert names == Segments(root);
      assert !EndsWithSlash(rel);
    } else {
      var joined := r + "/" + rel;
      SplitOfConcat(r, rel, SLASH);
      assert joined == r + ['/'] + rel;
      WalkInTwo([], Split(r, SLASH), Split(rel, SLASH));
      WalkWithoutDotDot(Segments(root), Split(rel, SLASH));
      assert Segments(joined) == names;
      SegmentsAreNames(joined);
      assert IsAbsolute(joined);
      RenderIsAbsolute(names, EndsWithSlash(rel));
      assert EndsWithSlash(joined) == EndsWithSlash(rel);
      SegmentsOfRender(names, EndsWithSlash(rel));
    }
  }

  lemma KeptEmpty()
    ensures Kept([""]) == []
  {
    assert [""][1..] == [];
  }

  /** What the customer asked for, after decoding and without leading slashes. */
  function Asked(userPath: string, decode: string -> Option<string>): seq<string>
    requires decode(userPath).Some?
  {
    Split(StripLeading(decode(userPath).value), SLASH)
  }

  /** An accepted path consists of the root's names and then names the customer asked for, none of them `..`
      and none denied; it passes the check on real paths too, and is the root followed by the relative path. */
  lemma AcceptedIsConfined(root: string, userPath: string, decode: string -> Option<string>)
    requires ResolveWithinRoot(root, userPath, decode).Accepted?
    ensures decode(userPath).Some?
    ensures var r := ResolveWithinRoot(root, userPath, decode);
            Segments(r.absolutePath) == Segments(root) + Kept(Asked(userPath, decode))
            && IsRealPathInsideRoot(root, r.absolutePath)
            && ((r.absolutePath == NormalisedRoot(root) && r.relativePath == "/")
                || (r.absolutePath == NormalisedRoot(root) + r.relativePath && IsAbsolute(r.relativePath)))
    ensures forall s :: s in Kept(Asked(userPath, decode)) ==> MayBeAskedFor(s)
  {
    hide Split, Render, Segments, Normalize, JoinPaths, NormalisedRoot, Kept, StripLeading, ResolveWithinRoot,
      IsAtOrBelow, MayBeAskedFor, AreNames, IsPlain;
    AcceptedIff(root, userPath, decode);
    AcceptedReaches(root, userPath, decode);
    var rel := StripLeading(decode(userPath).value);
    var names := Segments(root) + Kept(Asked(userPath, decode));
    JoinedIs(root, rel);
    SegmentsOfRender(names, EndsWithSlash(rel));
    RenderIsAbsolute(names, EndsWithSlash(rel));
    SlashAfterRoot(root, ResolveWithinRoot(root, userPath, decode).absolutePath);
  }

  lemma AcceptedReaches(root: string, userPath: string, decode: string -> Option<string>)
    requires ResolveWithinRoot(root, userPath, decode).Accepted?
    ensures decode(userPath).Some? && ".." !in Asked(userPath, decode)
    ensures var r := ResolveWithinRoot(root, userPath, decode);
            var top := NormalisedRoot(root);
            r.absolutePath == Normalize(JoinPaths(top, StripLeading(decode(userPath).value)))
            && IsAtOrBelow(top, r.absolutePath)
            && |top| <= |r.absolutePath|
            && r.relativePath == if r.absolutePath == top then "/" else r.absolutePath[|top|..]
  {
    hide Split, Normalize, JoinPaths, NormalisedRoot, StripLeading, HasEscape, FirstProblem, IsControl;
  }

  lemma SlashAfterRoot(root: string, path: string)
    requires IsAtOrBelow(NormalisedRoot(root), path)
    ensures var top := NormalisedRoot(root);
            path == top || (|top| < |path| && path == top + path[|top|..] && IsAbsolute(path[|top|..]))
  {
    hide NormalisedRoot;
    var top := NormalisedRoot(root);
    if path != top {
      assert (top + "/")[|top|] == path[|top|];
    }
  }

  lemma RenderIsAbsolute(names: seq<string>, trailing: bool)
    ensures IsAbsolute(Render(names, trailing))
  {
    hide Join;
  }

  /** The last test rejects nothing that passed the others, unless the root is `/`; then it rejects everything
      but the root itself. */
  lemma LastTestIs(root: string, userPath: string, decode: string -> Option<string>)
    requires decode(userPath).Some?
    requires var r := ResolveWithinRoot(root, userPath, decode); r.Accepted? || r.reason == Outside
    ensures ResolveWithinRoot(root, userPath, decode).Accepted?
            <==> Segments(root) != [] || Kept(Asked(userPath, decode)) == []
  {
    hide Split, Render, Segments, Normalize, JoinPaths, NormalisedRoot, Kept, HasEscape, IsAtOrBelow, AreNames;
    var rel := StripLeading(decode(userPath).value);
    NoOutsideProblem(Split(rel, SLASH));
    JoinedIs(root, rel);
    NormalisedRootIs(root);
    NamesAreParts(Segments(root));
    NamesAreParts(Segments(root) + Kept(Split(rel, SLASH)));
    BoundaryIs(Segments(root), Segments(root) + Kept(Split(rel, SLASH)), EndsWithSlash(rel));
  }

  /** A text with nothing in it that is refused before its names are looked at. */
  predicate IsPlain(userPath: string, decode: string -> Option<string>) {
    |userPath| <= 4096 && '\0' !in userPath && decode(userPath).Some?
    && var d := decode(userPath).value;
       (forall c :: c in d ==> 32 <= c as int != 127 && c != '\\')
       && forall i :: 0 <= i < |d| - 2 && d[i] == '%' ==> !(d[i + 1] in HEX_DIGITS && d[i + 2] in HEX_DIGITS)
  }

  const HEX_DIGITS := "0123456789abcdefABCDEF"

  lemma HexDigits(c: char)
    ensures IsHex(c) <==> c in HEX_DIGITS
  {
  }

  /** What is refused before names are looked at is exactly what is not plain. */
  lemma PlainIff(userPath: string, decode: string -> Option<string>)
    ensures IsPlain(userPath, decode)
            <==> |userPath| <= MAX_PATH_LENGTH && '\0' !in userPath && decode(userPath).Some?
                 && var d := decode(userPath).value;
                    !HasEscape(d) && !(exists c :: c in d && IsControl(c)) && '\\' !in d
  {
    hide IsHex, HEX_DIGITS;
    if decode(userPath).Some? {
      var d := decode(userPath).value;
      forall c
        ensures IsHex(c) <==> c in HEX_DIGITS
      {
        HexDigits(c);
      }
      assert forall c :: c in d ==> (IsControl(c) <==> !(32 <= c as int != 127));
    }
  }

  /** A name a customer may ask for. */
  predicate MayBeAskedFor(s: string) {
    SLASH !in s && (exists c :: c in s && c != '.') && ToLowerCase(s) !in DENIED_NAMES && |s| <= 255
  }

  /** What is accepted, in terms of names alone. */
  lemma AcceptedIff(root: string, userPath: string, decode: string -> Option<string>)
    ensures ResolveWithinRoot(root, userPath, decode).Accepted?
            <==> IsAbsolute(root) && IsPlain(userPath, decode)
                 && (forall s :: s in Kept(Asked(userPath, decode)) ==> MayBeAskedFor(s))
                 && (Segments(root) != [] || Kept(Asked(userPath, decode)) == [])
  {
    hide Split, Render, Segments, Normalize, JoinPaths, NormalisedRoot, Kept, HasEscape, IsAtOrBelow, ToLowerCase;
    PlainIff(userPath, decode);
    if IsAbsolute(root) && IsPlain(userPath, decode) {
      var parts := Asked(userPath, decode);
      NamesAreFineIff(StripLeading(decode(userPath).value));
      NoOutsideProblem(parts);
      if ".." !in parts && FirstProblem(parts).None? {
        LastTestIs(root, userPath, decode);
      }
    }
  }

  lemma DotsIff(s: string)
    ensures (exists c :: c in s && c != '.') <==> s != "" && s != "." && !OnlyDots(s)
    ensures OnlyDots("..")
  {
    if s != "" && s != "." && |s| == 1 {
      assert s[0] in s;
    }
  }

  lemma NamesAreFineIff(text: string)
    ensures var parts := Split(text, SLASH);
            ".." !in parts && FirstProblem(parts).None? <==> forall s :: s in Kept(parts) ==> MayBeAskedFor(s)
  {
    hide Split, ToLowerCase, FirstProblem, Kept;
    var parts := Split(text, SLASH);
    KeptIs(parts);
    EmptyAndDotAreFine();
    if forall s :: s in Kept(parts) ==> MayBeAskedFor(s) {
      DotsIff("..");
      forall s | s in parts
        ensures SegmentProblem(s).None?
      {
        assert s == "" || s == "." || s in Kept(parts);
        DotsIff(s);
      }
    }
    if ".." !in parts && FirstProblem(parts).None? {
      forall s | s in Kept(parts)
        ensures MayBeAskedFor(s)
      {
        assert s in parts && SLASH !in s && SegmentProblem(s).None?;
        DotsIff(s);
      }
    }
  }

  lemma EmptyAndDotAreFine()
    ensures SegmentProblem("").None? && SegmentProblem(".").None?
  {
    assert ToLowerCase("") == "" && ToLowerCase(".") == ".";
  }

  lemma {:induction false} NoOutsideProblem(segments: seq<string>)
    ensures FirstProblem(segments) != Some(Outside)
  {
    hide ToLowerCase;
    if segments != [] {
      NoOutsideProblem(segments[1..]);
    }
  }

  /** What the final test rejects: everything that is in order in itself, under the root `/`, but that root. */
  lemma OutsideIff(root: string, userPath: string, decode: string -> Option<string>)
    ensures ResolveWithinRoot(root, userPath, decode) == Rejected(Outside)
            <==> IsAbsolute(root) && IsPlain(userPath, decode) && Segments(root) == []
                 && Kept(Asked(userPath, decode)) != []
                 && forall s :: s in Kept(Asked(userPath, decode)) ==> MayBeAskedFor(s)
  {
    hide Split, Render, Segments, Normalize, JoinPaths, NormalisedRoot, Kept, HasEscape, IsAtOrBelow, ToLowerCase,
      AreNames;
    PlainIff(userPath, decode);
    if IsAbsolute(root) && IsPlain(userPath, decode) {
      var parts := Asked(userPath, decode);
      NamesAreFineIff(StripLeading(decode(userPath).value));
      NoOutsideProblem(parts);
      if ".." !in parts && FirstProblem(parts).None? {
        LastTestIs(root, userPath, decode);
      }
    }
  }

  /** So a website whose root is `/` has no files that can be reached. */
  lemma NothingIsBelowSlash()
    ensures ResolveWithinRoot("/", "a", s => Some(s)) == Rejected(Outside)
  {
    hide Split, ToLowerCase;
    var decode := (s: string) => Some(s);
    var name := "a";
    SplitOfPiece(name, SLASH);
    KeptNames([name]);
    SegmentsOfRender([], false);
    assert Kept(Asked(name, decode)) == [name];
    assert MayBeAskedFor(name) by { assert ToLowerCase(name) == name && 'a' in name; }
    OutsideIff("/", name, decode);
  }
}
