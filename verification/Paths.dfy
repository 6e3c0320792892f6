/**
 * Entry-path validation (`safe-archive/src/paths.ts`) and the destination check of
 * `safe-archive/src/guard.ts`, with POSIX path resolution.
 */
module Paths {
  import opened Results
  import opened Refusals
  import opened Text

  /** `rawPath.replace(/\\/g, '/')`. */
  function Unify(s: string): (u: string)
    ensures |u| == |s|
    ensures forall i | 0 <= i < |s| :: u[i] == if s[i] == '\\' then '/' else s[i]
  {
    seq(|s|, i requires 0 <= i < |s| => if s[i] == '\\' then '/' else s[i])
  }

  predicate IsLetter(c: char) { 'A' <= c <= 'Z' || 'a' <= c <= 'z' }

  /** The expression `/^[A-Za-z]:[\\/]?/`, whose last part never decides. */
  predicate HasDriveLetter(s: string) { |s| >= 2 && IsLetter(s[0]) && s[1] == ':' }

  /** `.filter(segment => segment !== '' && segment !== '.')`. */
  function Meaningful(parts: seq<string>): (kept: seq<string>)
    ensures forall p | p in kept :: p in parts && p != "" && p != "."
  {
    if parts == [] then []
    else if parts[0] == "" || parts[0] == "." then Meaningful(parts[1..])
    else [parts[0]] + Meaningful(parts[1..])
  }

  function NormaliseEntryPath(rawPath: string): Result<string, Refusal> {
    if '\0' in rawPath then Err(MalformedArchive)
    else
      var unified := Unify(rawPath);
      if (unified != "" && unified[0] == '/') || HasDriveLetter(unified) then Err(AbsolutePath)
      else
        var segments := Meaningful(Split(unified, '/'));
        if ".." in segments then Err(PathEscapesRoot)
        else if segments == [] then Err(MalformedArchive)
        else Ok(Join(segments, "/"))
  }

  /** One segment of a path in normal form. */
  predicate CleanSegment(p: string) {
    p != "" && p != "." && p != ".." && '/' !in p
  }

  predicate CleanSegments(parts: seq<string>) {
    forall p | p in parts :: CleanSegment(p)
  }

  /** What an accepted path looks like, whatever it was written as. */
  ghost predicate IsNormalForm(path: string) {
    && '\0' !in path && '\\' !in path
    && CleanSegments(Split(path, '/'))
  }

  lemma {:induction false} CharOfPiece(s: string, sep: char, p: string, c: char)
    requires p in Split(s, sep) && c in p
    ensures c in s
  {
    if s != "" {
      var rest := Split(s[1..], sep);
      if s[0] == sep {
        assert p != "" && p in rest;
        CharOfPiece(s[1..], sep, p, c);
      } else if p in rest[1..] {
        CharOfPiece(s[1..], sep, p, c);
      } else if c != s[0] {
        CharOfPiece(s[1..], sep, rest[0], c);
      }
    }
  }

  lemma {:induction false} CharOfJoin(parts: seq<string>, sep: string, c: char)
    requires c in Join(parts, sep)
    ensures c in sep || exists p :: p in parts && c in p
  {
    if |parts| > 1 && c !in parts[0] && c !in sep {
      CharOfJoin(parts[1..], sep, c);
    }
  }

  /** An accepted path is relative and free of backslashes, NULs and special segments. */
  lemma AcceptedIsNormalForm(rawPath: string)
    requires NormaliseEntryPath(rawPath).Ok?
    ensures IsNormalForm(NormaliseEntryPath(rawPath).value)
    ensures Split(NormaliseEntryPath(rawPath).value, '/') == Meaningful(Split(Unify(rawPath), '/'))
  {
    var unified, path := Unify(rawPath), NormaliseEntryPath(rawPath).value;
    var segments := Meaningful(Split(unified, '/'));
    SplitJoin(segments, '/');
    forall c | c in path
      ensures c == '/' || c in unified
    {
      CharOfJoin(segments, "/", c);
      if c != '/' {
        var p :| p in segments && c in p;
        CharOfPiece(unified, '/', p, c);
      }
    }
  }

  // ---- What is accepted, on the path as written ----------------------------------------------

  /** It names an absolute location: a separator first, or a drive letter and a colon. */
  predicate NamesAbsolute(raw: string) {
    raw != "" &&
    (raw[0] == '/' || raw[0] == '\\'
     || (|raw| >= 2 && ('A' <= raw[0] <= 'Z' || 'a' <= raw[0] <= 'z') && raw[1] == ':'))
  }

  predicate SaysSomething(piece: string) { piece != "" && piece != "." }

  lemma {:induction false} MeaningfulSaysSomething(parts: seq<string>)
    ensures forall p :: p in Meaningful(parts) <==> p in parts && SaysSomething(p)
  {
    if parts != [] {
      MeaningfulSaysSomething(parts[1..]);
      assert parts == [parts[0]] + parts[1..];
    }
  }

  /** Acceptance and each refusal, by what is written between the separators of either kind. */
  lemma NormalisationIs(raw: string)
    ensures var pieces, r := Split(Unify(raw), '/'), NormaliseEntryPath(raw);
            && (r == Err(AbsolutePath) <==> '\0' !in raw && NamesAbsolute(raw))
            && (r == Err(PathEscapesRoot) <==> '\0' !in raw && !NamesAbsolute(raw) && ".." in pieces)
            && (r == Err(MalformedArchive) <==>
                  '\0' in raw
                  || (!NamesAbsolute(raw) && ".." !in pieces && forall p | p in pieces :: !SaysSomething(p)))
            && (r.Ok? <==>
                  && '\0' !in raw && !NamesAbsolute(raw) && ".." !in pieces
                  && exists p :: p in pieces && SaysSomething(p))
  {
    var pieces := Split(Unify(raw), '/');
    MeaningfulSaysSomething(pieces);
    assert SaysSomething("..");
    var segments := Meaningful(pieces);
    if segments != [] {
      assert segments[0] in segments;
    }
  }

  /** `at` goes upwards through `parts` and `kept` is what it finds there. */
  ghost predicate Follows(parts: seq<string>, at: seq<nat>, kept: seq<string>) {
    && |at| == |kept|
    && (forall i | 0 <= i < |at| :: at[i] < |parts| && kept[i] == parts[at[i]])
    && (forall i, j | 0 <= i < j < |at| :: at[i] < at[j])
  }

  /** `at` picks from `parts`, in order, exactly those that say something, and they are `kept`. */
  ghost predicate Picks(parts: seq<string>, at: seq<nat>, kept: seq<string>) {
    && Follows(parts, at, kept)
    && forall k | 0 <= k < |parts| :: k in at <==> SaysSomething(parts[k])
  }

  function Later(at: seq<nat>): (later: seq<nat>)
    ensures |later| == |at| && forall i | 0 <= i < |at| :: later[i] == at[i] + 1
  {
    seq(|at|, i requires 0 <= i < |at| => at[i] + 1)
  }

  lemma LaterHas(at: seq<nat>, k: nat)
    ensures 0 !in Later(at) && (k + 1 in Later(at) <==> k in at)
  {
    if k in at {
      var i :| 0 <= i < |at| && at[i] == k;
      assert Later(at)[i] == k + 1;
    }
  }

  lemma FollowsStep(part: string, parts: seq<string>, at: seq<nat>, kept: seq<string>)
    requires Follows(parts, at, kept)
    ensures Follows([part] + parts, Later(at), kept) && Follows([part] + parts, [0] + Later(at), [part] + kept)
  {
    hide Later;
  }

  lemma PicksStep(part: string, parts: seq<string>, at: seq<nat>, kept: seq<string>) returns (more: seq<nat>)
    requires Picks(parts, at, kept)
    ensures Picks([part] + parts, more, if SaysSomething(part) then [part] + kept else kept)
  {
    hide SaysSomething, Follows, Later;
    FollowsStep(part, parts, at, kept);
    more := if SaysSomething(part) then [0] + Later(at) else Later(at);
    var all := [part] + parts;
    forall k | 0 <= k < |all|
      ensures k in more <==> SaysSomething(all[k])
    {
      LaterHas(at, if k == 0 then 0 else k - 1);
      assert k > 0 ==> all[k] == parts[k - 1] && (k in more <==> k in Later(at));
    }
  }

  lemma {:induction false} MeaningfulPicks(parts: seq<string>) returns (at: seq<nat>)
    ensures Picks(parts, at, Meaningful(parts))
  {
    if parts == [] {
      at := [];
    } else {
      hide Picks;
      at := MeaningfulPicks(parts[1..]);
      at := PicksStep(parts[0], parts[1..], at, Meaningful(parts[1..]));
      assert parts == [parts[0]] + parts[1..];
    }
  }

  /** An accepted path consists of the pieces that say something, in the order they are written. */
  lemma AcceptedPieces(raw: string) returns (at: seq<nat>)
    requires NormaliseEntryPath(raw).Ok?
    ensures Picks(Split(Unify(raw), '/'), at, Split(NormaliseEntryPath(raw).value, '/'))
  {
    AcceptedIsNormalForm(raw);
    at := MeaningfulPicks(Split(Unify(raw), '/'));
  }

  lemma {:induction false} MeaningfulKeepsClean(parts: seq<string>)
    requires CleanSegments(parts)
    ensures Meaningful(parts) == parts
  {
    if parts != [] {
      assert CleanSegment(parts[0]);
      MeaningfulKeepsClean(parts[1..]);
      assert parts == [parts[0]] + parts[1..];
    }
  }

  lemma NormalFormStart(path: string)
    requires IsNormalForm(path)
    ensures path != "" && path[0] != '/'
  {
    assert Split(path, '/')[0] in Split(path, '/');
  }

  /** What happens to a path that already is in normal form. */
  lemma NormaliseNormalForm(path: string)
    requires IsNormalForm(path)
    ensures NormaliseEntryPath(path) == if HasDriveLetter(path) then Err(AbsolutePath) else Ok(path)
  {
    assert Unify(path) == path;
    var parts := Split(path, '/');
    MeaningfulKeepsClean(parts);
    JoinSplit(path, '/');
    NormalFormStart(path);
    assert forall p | p in parts :: CleanSegment(p);
  }

  /**
   * Normalising twice is normalising once exactly when the normal form does not begin with a drive
   * letter. It can: `./C:` passes the drive check and its normal form is `C:`.
   */
  lemma NormaliseTwice(rawPath: string)
    requires NormaliseEntryPath(rawPath).Ok?
    ensures var path := NormaliseEntryPath(rawPath).value;
            NormaliseEntryPath(path) == Ok(path) <==> !HasDriveLetter(path)
  {
    AcceptedIsNormalForm(rawPath);
    NormaliseNormalForm(NormaliseEntryPath(rawPath).value);
  }

  lemma NormaliseTwiceMayRefuse()
    ensures NormaliseEntryPath("./C:") == Ok("C:")
    ensures NormaliseEntryPath("C:") == Err(AbsolutePath)
  {
    var raw := "./C:";
    assert Unify(raw) == raw && Unify("C:") == "C:";
    assert raw == "." + ['/'] + "C:";
    SplitAtSeparator(".", "C:", '/');
    SplitWithoutSeparator("C:", '/');
    assert Split(raw, '/') == [".", "C:"] && [".", "C:"][1..] == ["C:"];
    MeaningfulKeepsClean(["C:"]);
  }

  // ---- Destinations --------------------------------------------------------------------------

  /** An absolute POSIX path as its segments; `/` is the empty sequence. */
  type AbsolutePath = seq<string>

  function Render(path: AbsolutePath): string { "/" + Join(path, "/") }

  /** `path.posix.resolve(base, p)`: `.` and empty segments vanish, `..` drops a segment if there is one. */
  function Walk(base: AbsolutePath, parts: seq<string>): AbsolutePath
    decreases |parts|
  {
    if parts == [] then base
    else if parts[0] == "" || parts[0] == "." then Walk(base, parts[1..])
    else if parts[0] == ".." then Walk(if base == [] then [] else base[..|base| - 1], parts[1..])
    else Walk(base + [parts[0]], parts[1..])
  }

  function Resolve(base: AbsolutePath, p: string): AbsolutePath {
    Walk(if p != "" && p[0] == '/' then [] else base, Split(p, '/'))
  }

  predicate StartsWith(s: string, prefix: string) { prefix <= s }

  function DestinationFor(root: AbsolutePath, entryPath: string): Result<AbsolutePath, Refusal> {
    var absolute := Resolve(root, entryPath);
    if Render(absolute) != Render(root) && !StartsWith(Render(absolute), Render(root) + "/") then
      Err(PathEscapesRoot)
    else Ok(absolute)
  }

  lemma {:induction false} ResolveIsClean(base: AbsolutePath, parts: seq<string>)
    requires CleanSegments(base) && forall p | p in parts :: '/' !in p
    ensures CleanSegments(Walk(base, parts))
    decreases |parts|
  {
    if parts == [] {
    } else if parts[0] == "" || parts[0] == "." {
      ResolveIsClean(base, parts[1..]);
    } else if parts[0] == ".." {
      ResolveIsClean(if base == [] then [] else base[..|base| - 1], parts[1..]);
    } else {
      ResolveIsClean(base + [parts[0]], parts[1..]);
    }
  }

  lemma {:induction false} WalkClean(base: AbsolutePath, parts: seq<string>)
    requires CleanSegments(parts)
    ensures Walk(base, parts) == base + parts
    decreases |parts|
  {
    if parts == [] {
      assert base + parts == base;
    } else {
      assert CleanSegment(parts[0]);
      WalkClean(base + [parts[0]], parts[1..]);
      assert base + [parts[0]] + parts[1..] == base + parts;
    }
  }

  lemma {:induction false} JoinAppend(a: seq<string>, b: seq<string>)
    requires a != [] && b != []
    ensures Join(a + b, "/") == Join(a, "/") + "/" + Join(b, "/")
  {
    if |a| > 1 {
      JoinAppend(a[1..], b);
      assert (a + b)[1..] == a[1..] + b;
    } else {
      assert (a + b)[1..] == b;
    }
  }

  lemma ResolveNormalForm(root: AbsolutePath, path: string)
    requires IsNormalForm(path)
    ensures Resolve(root, path) == root + Split(path, '/')
  {
    var parts := Split(path, '/');
    NormalFormStart(path);
    WalkClean(root, parts);
  }

  /** An accepted path is refused a destination only under the root `/`, and there always. */
  lemma DestinationAccepts(root: AbsolutePath, path: string)
    requires CleanSegments(root) && IsNormalForm(path)
    ensures DestinationFor(root, path) == if root == [] then Err(PathEscapesRoot) else Ok(root + Split(path, '/'))
  {
    var parts := Split(path, '/');
    ResolveNormalForm(root, path);
    if root == [] {
      assert root + parts == parts;
      JoinSplit(path, '/');
      assert Render([]) == "/";
      assert Render(parts) == "/" + path;
      NormalFormStart(path);
      assert Render(parts)[1] == path[0] && (Render([]) + "/")[1] == '/';
    } else {
      JoinAppend(root, parts);
      assert Render(root + parts) == (Render(root) + "/") + Join(parts, "/");
    }
  }

  /** Whatever the entry path is, an accepted destination is the root or lies below it. */
  lemma DestinationStaysUnderRoot(root: AbsolutePath, entryPath: string)
    requires CleanSegments(root) && DestinationFor(root, entryPath).Ok?
    ensures root <= DestinationFor(root, entryPath).value
  {
    var absolute := DestinationFor(root, entryPath).value;
    ResolveIsClean(if entryPath != "" && entryPath[0] == '/' then [] else root, Split(entryPath, '/'));
    RenderedPrefix(root, absolute);
  }

  /** The string test and the segment test agree. */
  lemma RenderedPrefix(root: AbsolutePath, absolute: AbsolutePath)
    requires CleanSegments(root) && CleanSegments(absolute)
    requires Render(absolute) == Render(root) || StartsWith(Render(absolute), Render(root) + "/")
    ensures root <= absolute
  {
    if root != [] {
      var r, a := Join(root, "/"), Join(absolute, "/");
      assert Render(root)[1..] == r && Render(absolute)[1..] == a;
      assert CleanSegment(root[0]);
      assert r != "" && |Render(root)| > 1;
      assert absolute == [] ==> |Render(absolute)| == 1;
      SplitJoin(root, '/');
      SplitJoin(absolute, '/');
      if a != r {
        var rest := a[|r| + 1..];
        assert a == r + ['/'] + rest by {
          assert Render(root) + "/" == "/" + (r + "/");
          assert (r + "/") <= a;
        }
        SplitExtends(root, rest);
      }
    }
  }

  lemma {:induction false} SplitExtends(root: seq<string>, rest: string)
    requires root != [] && CleanSegments(root)
    ensures Split(Join(root, "/") + ['/'] + rest, '/') == root + Split(rest, '/')
  {
    if |root| == 1 {
      assert CleanSegment(root[0]);
      SplitAtSeparator(root[0], rest, '/');
      assert root == [root[0]];
    } else {
      var tail := Join(root[1..], "/") + ['/'] + rest;
      SplitExtends(root[1..], rest);
      assert CleanSegment(root[0]);
      SplitAtSeparator(root[0], tail, '/');
      assert Join(root, "/") + ['/'] + rest == root[0] + ['/'] + tail;
      assert root == [root[0]] + root[1..];
    }
  }

  /** Distinct accepted paths never share a destination. */
  lemma DestinationsDistinct(root: AbsolutePath, p: string, q: string)
    requires CleanSegments(root) && root != [] && IsNormalForm(p) && IsNormalForm(q)
    requires DestinationFor(root, p) == DestinationFor(root, q)
    ensures p == q
  {
    DestinationAccepts(root, p);
    DestinationAccepts(root, q);
    var a, b := root + Split(p, '/'), root + Split(q, '/');
    assert a[|root|..] == Split(p, '/') && b[|root|..] == Split(q, '/');
    JoinSplit(p, '/');
    JoinSplit(q, '/');
  }
}
