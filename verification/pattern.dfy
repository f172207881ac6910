/**
 * Route-pattern compiler of yaaf/loader.py (`build_pattern`). A route such as `users/[id]`
 * compiles to the anchored regular expression `^/api/users/([^/]+)$`; here that expression is a
 * list of segment matchers, a literal or a capture of one or more characters other than '/'.
 */
module Pattern {
  import opened Wrappers
  import opened Text

  /** A segment written `[name]`: it starts with '[' and ends with ']'. */
  predicate IsDynamic(part: string)
  {
    |part| > 0 && part[0] == '[' && part[|part| - 1] == ']'
  }

  /** `_strip_dynamic`: the name inside the brackets of a dynamic segment; other segments unchanged. */
  function StripDynamic(part: string): (r: string)
    ensures IsDynamic(part) ==> part == "[" + r + "]"
    ensures !IsDynamic(part) ==> r == part
    ensures '_' !in part ==> '_' !in r
  {
    if IsDynamic(part) then part[1..|part| - 1] else part
  }

  datatype Matcher = Literal(text: string) | Capture

  /** `^/<prefix>$` when `matchers` is empty, otherwise `^/<prefix>/<m1>/.../<mn>$`. */
  datatype CompiledPattern = CompiledPattern(prefix: string, matchers: seq<Matcher>)

  /** What `build_pattern` returns: the pattern, the parameter names, the static and total counts. */
  datatype RoutePattern = RoutePattern(pattern: CompiledPattern, paramNames: seq<string>, staticCount: nat, segmentCount: nat)

  datatype PatternError = EmptyDynamicSegment

  function MatcherOf(part: string): Matcher
  {
    if IsDynamic(part) then Capture else Literal(part)
  }

  function MatchersOf(parts: seq<string>): (ms: seq<Matcher>)
    ensures |ms| == |parts|
    ensures forall i :: 0 <= i < |parts| ==> ms[i] == MatcherOf(parts[i])
  {
    if parts == [] then [] else MatchersOf(parts[..|parts| - 1]) + [MatcherOf(parts[|parts| - 1])]
  }

  /** The bracket-stripped names of the dynamic segments, left to right. */
  function DynamicNames(parts: seq<string>): seq<string>
  {
    if parts == [] then []
    else
      var last := parts[|parts| - 1];
      DynamicNames(parts[..|parts| - 1]) + (if IsDynamic(last) then [StripDynamic(last)] else [])
  }

  /** The number of literal segments. */
  function LiteralCount(parts: seq<string>): nat
  {
    if parts == [] then 0
    else LiteralCount(parts[..|parts| - 1]) + (if IsDynamic(parts[|parts| - 1]) then 0 else 1)
  }

  function CaptureCount(ms: seq<Matcher>): nat
  {
    if ms == [] then 0 else (if ms[0].Capture? then 1 else 0) + CaptureCount(ms[1..])
  }

  /** What `build_pattern(parts, prefix)` computes, as a value. */
  function Compile(parts: seq<string>, prefix: string): Result<RoutePattern, PatternError>
  {
    if parts == [] then Success(RoutePattern(CompiledPattern(prefix, []), [], 0, 0))
    else if "[]" in parts then Failure(EmptyDynamicSegment)
    else Success(RoutePattern(CompiledPattern(prefix, MatchersOf(parts)), DynamicNames(parts), LiteralCount(parts), |parts|))
  }

  /**
   * `build_pattern`: one pass over the segments, appending a capture and the stripped name for each
   * dynamic segment and a literal for each other one, failing on a `[]` segment.
   */
  method BuildPattern(parts: seq<string>, prefix: string) returns (r: Result<RoutePattern, PatternError>)
    ensures r == Compile(parts, prefix)
  {
    if parts == [] {
      return Success(RoutePattern(CompiledPattern(prefix, []), [], 0, 0));
    }
    var paramNames: seq<string> := [];
    var matchers: seq<Matcher> := [];
    var staticCount := 0;
    for i := 0 to |parts|
      invariant "[]" !in parts[..i]
      invariant paramNames == DynamicNames(parts[..i])
      invariant matchers == MatchersOf(parts[..i])
      invariant staticCount == LiteralCount(parts[..i])
    {
      var part := parts[i];
      assert parts[..i + 1][..i] == parts[..i];
      if IsDynamic(part) {
        var name := part[1..|part| - 1];
        if name == "" {
          assert part == "[]";
          return Failure(EmptyDynamicSegment);
        }
        paramNames := paramNames + [name];
        matchers := matchers + [Capture];
      } else {
        matchers := matchers + [Literal(part)];
        staticCount := staticCount + 1;
      }
    }
    assert parts[..|parts|] == parts;
    return Success(RoutePattern(CompiledPattern(prefix, matchers), paramNames, staticCount, |parts|));
  }

  lemma {:induction false} CountsAddUp(parts: seq<string>)
    ensures LiteralCount(parts) + |DynamicNames(parts)| == |parts|
    ensures CaptureCount(MatchersOf(parts)) == |DynamicNames(parts)|
  {
    if parts != [] {
      var init := parts[..|parts| - 1];
      CountsAddUp(init);
      CaptureCountAppend(MatchersOf(init), [MatcherOf(parts[|parts| - 1])]);
    }
  }

  lemma {:induction false} CaptureCountAppend(a: seq<Matcher>, b: seq<Matcher>)
    ensures CaptureCount(a + b) == CaptureCount(a) + CaptureCount(b)
  {
    if a == [] {
      assert a + b == b;
    } else {
      assert (a + b)[0] == a[0] && (a + b)[1..] == a[1..] + b;
      CaptureCountAppend(a[1..], b);
    }
  }

  lemma {:induction false} DynamicNamesFromSegments(parts: seq<string>)
    requires "[]" !in parts
    ensures forall n :: n in DynamicNames(parts) ==> n != "" && "[" + n + "]" in parts
  {
    if parts != [] {
      var init, last := parts[..|parts| - 1], parts[|parts| - 1];
      assert forall p :: p in init ==> p in parts;
      DynamicNamesFromSegments(init);
      if IsDynamic(last) {
        var name := StripDynamic(last);
        assert last == "[" + name + "]" && last in parts;
        assert last != "[]" && "[" + "" + "]" == "[]";
      }
    }
  }

  /**
   * The compiled route: an empty route gives the prefix-only pattern with no parameters and
   * counts 0/0; a `[]` segment is an error; otherwise there is one matcher per segment, the
   * parameter names are non-empty names of dynamic segments, one per capture, and the literal
   * count and the number of names add up to the segment count.
   */
  lemma CompileProperties(parts: seq<string>, prefix: string)
    ensures parts == [] ==> Compile(parts, prefix) == Success(RoutePattern(CompiledPattern(prefix, []), [], 0, 0))
    ensures Compile(parts, prefix).Failure? <==> "[]" in parts
    ensures Compile(parts, prefix).Success? ==>
      var rp := Compile(parts, prefix).value;
      && rp.pattern.prefix == prefix
      && rp.segmentCount == |parts| == |rp.pattern.matchers|
      && rp.staticCount + |rp.paramNames| == rp.segmentCount
      && CaptureCount(rp.pattern.matchers) == |rp.paramNames|
      && (forall i :: 0 <= i < |parts| ==> (rp.pattern.matchers[i] == Capture <==> IsDynamic(parts[i])))
      && (forall i :: 0 <= i < |parts| && !IsDynamic(parts[i]) ==> rp.pattern.matchers[i] == Literal(parts[i]))
      && (forall n :: n in rp.paramNames ==> n != "" && "[" + n + "]" in parts)
  {
    if parts != [] && "[]" !in parts {
      CountsAddUp(parts);
      DynamicNamesFromSegments(parts);
    }
  }

  // ---- Matching ---------------------------------------------------------------------------

  /** Length of the longest prefix of `s` without '/': what the greedy `[^/]+` consumes. */
  function SegmentEnd(s: string): (k: nat)
    ensures k <= |s|
    ensures forall i :: 0 <= i < k ==> s[i] != '/'
    ensures k < |s| ==> s[k] == '/'
  {
    if s == [] || s[0] == '/' then 0 else 1 + SegmentEnd(s[1..])
  }

  /** How much of `s` the matcher consumes, or -1 when it fails. */
  function PieceLength(m: Matcher, s: string): (k: int)
    ensures -1 <= k <= |s|
  {
    match m
    case Literal(t) => if StartsWith(s, t) then |t| else -1
    case Capture => var e := SegmentEnd(s); if e > 0 then e else -1
  }

  /**
   * Regular-expression matching of `m1/m2/.../mn$` against `s`, returning the captured groups.
   * Literals admit no choice, and a greedy `[^/]+` followed by '/' or the end can only take the
   * whole slash-free run, so the match is deterministic and backtracking never changes it.
   */
  function MatchFrom(ms: seq<Matcher>, s: string): (r: Option<seq<string>>)
    requires ms != []
    ensures r.Some? ==> |r.value| == CaptureCount(ms)
    ensures r.Some? ==> forall i :: 0 <= i < |r.value| ==> r.value[i] != "" && '/' !in r.value[i]
    decreases |ms|
  {
    var k := PieceLength(ms[0], s);
    if k < 0 then None
    else
      var caps := if ms[0].Capture? then [s[..k]] else [];
      if |ms| == 1 then
        (if k == |s| then Some(caps) else None)
      else if k < |s| && s[k] == '/' then
        match MatchFrom(ms[1..], s[k + 1..])
        case None => None
        case Some(more) => Some(caps + more)
      else None
  }

  /** The pattern with `$` read as the end of the string: the segments must use up the whole path. */
  function MatchAnchored(p: CompiledPattern, path: string): (r: Option<seq<string>>)
    ensures r.Some? ==> |r.value| == CaptureCount(p.matchers)
    ensures r.Some? ==> forall i :: 0 <= i < |r.value| ==> r.value[i] != "" && '/' !in r.value[i]
  {
    if p.matchers == [] then
      (if path == "/" + p.prefix then Some([]) else None)
    else
      var head := "/" + p.prefix + "/";
      if StartsWith(path, head) then MatchFrom(p.matchers, path[|head|..]) else None
  }

  predicate EndsInNewline(s: string)
  {
    |s| > 0 && s[|s| - 1] == '\n'
  }

  /**
   * `pattern.match(path)` with `.groups()`, `None` when the path does not match. Python's `$`
   * holds at the end of the string and also just before a newline that ends it, so a path
   * that fails as it is is tried once more without its final newline. A greedy capture at the
   * end takes that newline into its group, which is why the whole path is tried first.
   */
  function Match(p: CompiledPattern, path: string): (r: Option<seq<string>>)
    ensures r.Some? ==> |r.value| == CaptureCount(p.matchers)
    ensures r.Some? ==> forall i :: 0 <= i < |r.value| ==> r.value[i] != "" && '/' !in r.value[i]
  {
    match MatchAnchored(p, path)
    case Some(groups) => Some(groups)
    case None => if EndsInNewline(path) then MatchAnchored(p, path[..|path| - 1]) else None
  }

  /** A literal takes its text verbatim; a capture takes a non-empty slash-free piece. */
  predicate FitsOne(m: Matcher, piece: string)
  {
    match m
    case Literal(t) => piece == t
    case Capture => piece != "" && '/' !in piece
  }

  /** `pieces` fills the matchers position by position. */
  predicate Fits(ms: seq<Matcher>, pieces: seq<string>)
  {
    |ms| == |pieces| && forall i :: 0 <= i < |ms| ==> FitsOne(ms[i], pieces[i])
  }

  /** The pieces at capture positions, in order. */
  function CapturesOf(ms: seq<Matcher>, pieces: seq<string>): seq<string>
    requires |ms| == |pieces|
  {
    if ms == [] then [] else (if ms[0].Capture? then [pieces[0]] else []) + CapturesOf(ms[1..], pieces[1..])
  }

  /** The path made of `prefix` and `pieces`: `/<prefix>` or `/<prefix>/<p1>/.../<pn>`. */
  function Render(prefix: string, pieces: seq<string>): string
  {
    if pieces == [] then "/" + prefix else "/" + prefix + "/" + Join(pieces, "/")
  }

  /** `path` is `/<prefix>/` followed by `pieces`, and they fit the matchers. */
  ghost predicate RenderedBy(p: CompiledPattern, path: string, pieces: seq<string>)
  {
    Fits(p.matchers, pieces) && path == Render(p.prefix, pieces)
  }

  /** One more piece appends a '/' and that piece. */
  lemma RenderSnoc(prefix: string, pieces: seq<string>, x: string)
    ensures Render(prefix, pieces + [x]) == Render(prefix, pieces) + "/" + x
  {
    if pieces == [] {
      assert Join([x], "/") == x;
    } else {
      JoinSnoc(pieces, "/", x);
    }
  }

  lemma {:induction false} SegmentEndSlashFree(a: string, b: string)
    requires '/' !in a
    ensures SegmentEnd(a) == |a|
    ensures SegmentEnd(a + "/" + b) == |a|
  {
    if a != [] {
      assert (a + "/" + b)[1..] == a[1..] + "/" + b;
      SegmentEndSlashFree(a[1..], b);
    }
  }

  lemma FitsTail(ms: seq<Matcher>, pieces: seq<string>)
    requires ms != [] && Fits(ms, pieces)
    ensures Fits(ms[1..], pieces[1..])
  {
    forall i | 0 <= i < |ms[1..]| ensures FitsOne(ms[1..][i], pieces[1..][i]) {
      assert ms[1..][i] == ms[i + 1] && pieces[1..][i] == pieces[i + 1];
    }
  }

  /** A path rendered from fitting pieces matches, and the groups are the capture pieces. */
  lemma {:induction false} MatchFromRendered(ms: seq<Matcher>, pieces: seq<string>)
    requires ms != [] && Fits(ms, pieces)
    ensures MatchFrom(ms, Join(pieces, "/")) == Some(CapturesOf(ms, pieces))
    decreases |ms|
  {
    var p0 := pieces[0];
    assert FitsOne(ms[0], p0);
    if |ms| == 1 {
      assert Join(pieces, "/") == p0;
      assert CapturesOf(ms, pieces) == (if ms[0].Capture? then [p0] else []) by {
        assert ms[1..] == [] && pieces[1..] == [];
      }
      PieceOfLast(ms[0], p0);
    } else {
      var rest := Join(pieces[1..], "/");
      assert Join(pieces, "/") == p0 + "/" + rest;
      FitsTail(ms, pieces);
      MatchFromRendered(ms[1..], pieces[1..]);
      PieceOfRendered(ms[0], p0, rest);
    }
  }

  /** A fitting last piece is consumed whole. */
  lemma PieceOfLast(m: Matcher, p: string)
    requires FitsOne(m, p)
    ensures PieceLength(m, p) == |p| && p[..|p|] == p
  {
    if m.Capture? {
      SegmentEndSlashFree(p, "");
    } else {
      assert p[..|m.text|] == m.text;
    }
  }

  /** A fitting piece followed by '/' is consumed up to the separator. */
  lemma PieceOfRendered(m: Matcher, p: string, rest: string)
    requires FitsOne(m, p)
    ensures var s := p + "/" + rest;
      PieceLength(m, s) == |p| && s[..|p|] == p && s[|p|] == '/' && s[|p| + 1..] == rest
  {
    var s := p + "/" + rest;
    assert s[..|p|] == p && s[|p| + 1..] == rest;
    if m.Capture? {
      SegmentEndSlashFree(p, rest);
    }
  }

  /** The piece a matcher consumes fits it. */
  lemma PieceFits(m: Matcher, s: string)
    requires PieceLength(m, s) >= 0
    ensures FitsOne(m, s[..PieceLength(m, s)])
  {
  }

  /** A successful match splits the path into pieces that fit the matchers. */
  lemma {:induction false} MatchFromDecomposes(ms: seq<Matcher>, s: string)
    requires ms != []
    requires MatchFrom(ms, s).Some?
    ensures exists pieces :: Fits(ms, pieces) && s == Join(pieces, "/") && MatchFrom(ms, s) == Some(CapturesOf(ms, pieces))
    decreases |ms|
  {
    var k := PieceLength(ms[0], s);
    PieceFits(ms[0], s);
    if |ms| == 1 {
      var pieces := LastPiece(ms, s);
    } else {
      var tail := s[k + 1..];
      MatchFromDecomposes(ms[1..], tail);
      var more :| Fits(ms[1..], more) && tail == Join(more, "/") && MatchFrom(ms[1..], tail) == Some(CapturesOf(ms[1..], more));
      var pieces := NextPiece(ms, s, more);
    }
  }

  lemma LastPiece(ms: seq<Matcher>, s: string) returns (pieces: seq<string>)
    requires |ms| == 1 && MatchFrom(ms, s).Some?
    ensures Fits(ms, pieces) && s == Join(pieces, "/") && MatchFrom(ms, s) == Some(CapturesOf(ms, pieces))
  {
    var k := PieceLength(ms[0], s);
    PieceFits(ms[0], s);
    assert k == |s| && s[..k] == s;
    pieces := [s];
    assert ms[1..] == [] && pieces[1..] == [];
    assert CapturesOf(ms, pieces) == (if ms[0].Capture? then [s] else []);
  }

  /** A string is its part before a '/', the '/', and its part after. */
  lemma SplitAtSlash(s: string, k: nat)
    requires k < |s| && s[k] == '/'
    ensures s == s[..k] + "/" + s[k + 1..]
  {
    assert s[..k + 1] == s[..k] + "/";
    assert s == s[..k + 1] + s[k + 1..];
  }

  lemma NextPiece(ms: seq<Matcher>, s: string, more: seq<string>) returns (pieces: seq<string>)
    requires |ms| > 1 && MatchFrom(ms, s).Some?
    requires var k := PieceLength(ms[0], s);
      && 0 <= k < |s|
      && Fits(ms[1..], more) && s[k + 1..] == Join(more, "/")
      && MatchFrom(ms[1..], s[k + 1..]) == Some(CapturesOf(ms[1..], more))
    ensures Fits(ms, pieces) && s == Join(pieces, "/") && MatchFrom(ms, s) == Some(CapturesOf(ms, pieces))
  {
    var k := PieceLength(ms[0], s);
    var piece := s[..k];
    PieceFits(ms[0], s);
    pieces := [piece] + more;
    assert pieces[0] == piece && pieces[1..] == more;
    assert s[k] == '/';
    SplitAtSlash(s, k);
    forall i | 0 <= i < |ms| ensures FitsOne(ms[i], pieces[i]) {
      if i > 0 {
        assert ms[1..][i - 1] == ms[i] && more[i - 1] == pieces[i];
      }
    }
  }

  /**
   * With `$` read as the end of the string, a path matches exactly when it is the prefix followed
   * by pieces that fit the matchers (literals verbatim, captures non-empty and slash-free), and
   * the groups are the capture pieces in order.
   */
  lemma AnchoredIff(p: CompiledPattern, path: string, groups: seq<string>)
    ensures MatchAnchored(p, path) == Some(groups) <==>
      exists pieces :: RenderedBy(p, path, pieces) && groups == CapturesOf(p.matchers, pieces)
  {
    if MatchAnchored(p, path) == Some(groups) {
      AnchoredDecomposes(p, path, groups);
    }
    if exists pieces :: RenderedBy(p, path, pieces) && groups == CapturesOf(p.matchers, pieces) {
      var pieces :| RenderedBy(p, path, pieces) && groups == CapturesOf(p.matchers, pieces);
      AnchoredRendered(p, pieces);
    }
  }

  /** An anchored match splits the path into fitting pieces whose captures are the groups. */
  lemma AnchoredDecomposes(p: CompiledPattern, path: string, groups: seq<string>)
    requires MatchAnchored(p, path) == Some(groups)
    ensures exists pieces :: RenderedBy(p, path, pieces) && groups == CapturesOf(p.matchers, pieces)
  {
    var head := "/" + p.prefix + "/";
    if p.matchers == [] {
      assert RenderedBy(p, path, []) && groups == CapturesOf(p.matchers, []);
    } else {
      var pieces := SegmentsDecompose(p, path);
      assert RenderedBy(p, path, pieces);
    }
  }

  /** With matchers, an anchored match is `/<prefix>/` followed by fitting pieces. */
  lemma SegmentsDecompose(p: CompiledPattern, path: string) returns (pieces: seq<string>)
    requires p.matchers != [] && MatchAnchored(p, path).Some?
    ensures Fits(p.matchers, pieces) && path == Render(p.prefix, pieces)
    ensures MatchAnchored(p, path) == Some(CapturesOf(p.matchers, pieces))
  {
    var head := "/" + p.prefix + "/";
    assert StartsWith(path, head);
    var tail := path[|head|..];
    assert path == head + tail;
    MatchFromDecomposes(p.matchers, tail);
    pieces :| Fits(p.matchers, pieces) && tail == Join(pieces, "/") && MatchFrom(p.matchers, tail) == Some(CapturesOf(p.matchers, pieces));
  }

  /** The path rendered from fitting pieces matches, anchored, with their captures. */
  lemma AnchoredRendered(p: CompiledPattern, pieces: seq<string>)
    requires Fits(p.matchers, pieces)
    ensures MatchAnchored(p, Render(p.prefix, pieces)) == Some(CapturesOf(p.matchers, pieces))
  {
    if p.matchers != [] {
      var head := "/" + p.prefix + "/";
      var path := Render(p.prefix, pieces);
      MatchFromRendered(p.matchers, pieces);
      assert path == head + Join(pieces, "/");
      assert path[..|head|] == head && path[|head|..] == Join(pieces, "/");
    }
  }

  /**
   * `pattern.match(path)` succeeds with groups `g` exactly when the path is the prefix followed
   * by pieces that fit the matchers and `g` are their captures, or, failing that, when the path
   * ends in a newline and the same holds of the path without it.
   */
  lemma MatchIff(p: CompiledPattern, path: string, groups: seq<string>)
    ensures Match(p, path) == Some(groups) <==>
      || (exists pieces :: RenderedBy(p, path, pieces) && groups == CapturesOf(p.matchers, pieces))
      || (&& EndsInNewline(path)
          && (forall pieces :: !RenderedBy(p, path, pieces))
          && exists pieces :: RenderedBy(p, path[..|path| - 1], pieces) && groups == CapturesOf(p.matchers, pieces))
  {
    AnchoredIff(p, path, groups);
    if MatchAnchored(p, path).Some? {
      AnchoredDecomposes(p, path, MatchAnchored(p, path).value);
    } else {
      forall pieces | RenderedBy(p, path, pieces) ensures false {
        AnchoredRendered(p, pieces);
      }
      if EndsInNewline(path) {
        AnchoredIff(p, path[..|path| - 1], groups);
      }
    }
  }

  lemma {:induction false} CapturesCount(ms: seq<Matcher>, pieces: seq<string>)
    requires |ms| == |pieces|
    ensures |CapturesOf(ms, pieces)| == CaptureCount(ms)
  {
    if ms != [] {
      CapturesCount(ms[1..], pieces[1..]);
    }
  }

  /** A match of a compiled route yields exactly one group per parameter name. */
  lemma GroupsMatchParamNames(parts: seq<string>, prefix: string, path: string)
    requires Compile(parts, prefix).Success?
    requires Match(Compile(parts, prefix).value.pattern, path).Some?
    ensures |Match(Compile(parts, prefix).value.pattern, path).value| == |Compile(parts, prefix).value.paramNames|
  {
    CompileProperties(parts, prefix);
  }

  /**
   * A route of literal segments matches exactly its own path, the prefix followed by its segments
   * joined by '/', and that path followed by one newline, both with no groups (no partial-prefix
   * and no extra-segment matches).
   */
  lemma StaticRouteMatchesOnlyItself(parts: seq<string>, prefix: string, path: string)
    requires forall i :: 0 <= i < |parts| ==> !IsDynamic(parts[i])
    ensures Compile(parts, prefix).Success?
    ensures Match(Compile(parts, prefix).value.pattern, path).Some? <==>
      path == Render(prefix, parts) || path == Render(prefix, parts) + "\n"
    ensures Match(Compile(parts, prefix).value.pattern, path).Some? ==> Match(Compile(parts, prefix).value.pattern, path).value == []
  {
    StaticCompiles(parts, prefix);
    StaticAnchored(parts, prefix, path);
    if EndsInNewline(path) {
      StaticAnchored(parts, prefix, path[..|path| - 1]);
    }
    NewlineAfter(path, Render(prefix, parts));
  }

  /** A route of literal segments always compiles. */
  lemma StaticCompiles(parts: seq<string>, prefix: string)
    requires forall i :: 0 <= i < |parts| ==> !IsDynamic(parts[i])
    ensures Compile(parts, prefix).Success?
  {
    forall i | 0 <= i < |parts| ensures parts[i] != "[]" {
      assert !IsDynamic(parts[i]);
    }
    CompileProperties(parts, prefix);
  }

  /** `path` is `s` followed by one newline exactly when it ends in one and `s` comes before it. */
  lemma NewlineAfter(path: string, s: string)
    ensures path == s + "\n" <==> EndsInNewline(path) && path[..|path| - 1] == s
  {
    if EndsInNewline(path) {
      assert path == path[..|path| - 1] + "\n";
    }
    if path == s + "\n" {
      assert path[..|path| - 1] == s;
    }
  }

  /** The anchored match of a route of literal segments: its own path only, with no groups. */
  lemma StaticAnchored(parts: seq<string>, prefix: string, path: string)
    requires forall i :: 0 <= i < |parts| ==> !IsDynamic(parts[i])
    requires Compile(parts, prefix).Success?
    ensures MatchAnchored(Compile(parts, prefix).value.pattern, path) ==
      if path == Render(prefix, parts) then Some([]) else None
  {
    CompileProperties(parts, prefix);
    var p := Compile(parts, prefix).value.pattern;
    if MatchAnchored(p, path).Some? {
      var groups := MatchAnchored(p, path).value;
      AnchoredDecomposes(p, path, groups);
      var pieces :| RenderedBy(p, path, pieces) && groups == CapturesOf(p.matchers, pieces);
      assert pieces == parts;
      NoCaptures(p.matchers, pieces);
    }
    if path == Render(prefix, parts) {
      assert Fits(p.matchers, parts);
      AnchoredRendered(p, parts);
      NoCaptures(p.matchers, parts);
    }
  }

  lemma {:induction false} NoCaptures(ms: seq<Matcher>, pieces: seq<string>)
    requires |ms| == |pieces|
    requires forall i :: 0 <= i < |ms| ==> ms[i].Literal?
    ensures CapturesOf(ms, pieces) == []
  {
    if ms != [] {
      assert ms[0].Literal?;
      NoCaptures(ms[1..], pieces[1..]);
    }
  }

  /** Every literal segment of the dynamic route equals the segment of `parts` at its position. */
  predicate LiteralsAgree(dynParts: seq<string>, parts: seq<string>)
  {
    |dynParts| == |parts| && forall i :: 0 <= i < |dynParts| && !IsDynamic(dynParts[i]) ==> dynParts[i] == parts[i]
  }

  /** The segments with the final character of the last one removed. */
  function ChopLast(parts: seq<string>): (r: seq<string>)
    requires parts != [] && parts[|parts| - 1] != ""
    ensures |r| == |parts| && r[..|r| - 1] == parts[..|parts| - 1]
  {
    var last := parts[|parts| - 1];
    parts[..|parts| - 1] + [last[..|last| - 1]]
  }

  /**
   * The static segments end in a newline, the dynamic route ends in a literal segment, and
   * without that newline the literal segments agree: the case where `$` matches before it.
   */
  predicate AgreesBeforeNewline(dynParts: seq<string>, statParts: seq<string>)
  {
    && |dynParts| == |statParts| > 0
    && !IsDynamic(dynParts[|dynParts| - 1])
    && EndsInNewline(statParts[|statParts| - 1])
    && LiteralsAgree(dynParts, ChopLast(statParts))
  }

  /**
   * The shadowing test of discovery: for directory names (non-empty and slash-free), the path of
   * a static route matches a dynamic route of the same length exactly when every literal segment
   * of the dynamic route equals the static segment at the same position, or when the static
   * path ends in a newline before which that holds and the dynamic route ends in a literal.
   */
  lemma ShadowIff(dynParts: seq<string>, statParts: seq<string>, prefix: string)
    requires Compile(dynParts, prefix).Success?
    requires |dynParts| == |statParts| > 0
    requires forall i :: 0 <= i < |dynParts| ==> '/' !in dynParts[i]
    requires forall i :: 0 <= i < |statParts| ==> statParts[i] != "" && '/' !in statParts[i]
    ensures Match(Compile(dynParts, prefix).value.pattern, Render(prefix, statParts)).Some? <==>
      LiteralsAgree(dynParts, statParts) || AgreesBeforeNewline(dynParts, statParts)
  {
    var p := Compile(dynParts, prefix).value.pattern;
    var path := Render(prefix, statParts);
    var n := |statParts| - 1;
    ShadowWhole(dynParts, statParts, prefix);
    RenderLast(prefix, statParts);
    assert EndsInNewline(path) <==> EndsInNewline(statParts[n]);
    if EndsInNewline(statParts[n]) {
      ShadowChopped(dynParts, statParts, prefix);
    }
  }

  /** Without the newline rule: the whole static path matches iff the literal segments agree. */
  lemma ShadowWhole(dynParts: seq<string>, statParts: seq<string>, prefix: string)
    requires Compile(dynParts, prefix).Success?
    requires |dynParts| == |statParts| > 0
    requires forall i :: 0 <= i < |dynParts| ==> '/' !in dynParts[i]
    requires forall i :: 0 <= i < |statParts| ==> statParts[i] != "" && '/' !in statParts[i]
    ensures MatchAnchored(Compile(dynParts, prefix).value.pattern, Render(prefix, statParts)).Some? <==>
      LiteralsAgree(dynParts, statParts)
  {
    CompileProperties(dynParts, prefix);
    AnchoredOnRendered(Compile(dynParts, prefix).value.pattern, statParts);
    FitsAgree(dynParts, prefix, statParts);
    AgreeFits(dynParts, prefix, statParts);
  }

  /**
   * The static path without its final newline matches iff the dynamic route ends in a literal
   * and the literal segments agree with the chopped segments; after a final capture, a match
   * already means the literal segments agree with the static ones.
   */
  lemma ShadowChopped(dynParts: seq<string>, statParts: seq<string>, prefix: string)
    requires Compile(dynParts, prefix).Success?
    requires |dynParts| == |statParts| > 0
    requires forall i :: 0 <= i < |dynParts| ==> '/' !in dynParts[i]
    requires forall i :: 0 <= i < |statParts| ==> statParts[i] != "" && '/' !in statParts[i]
    requires EndsInNewline(statParts[|statParts| - 1])
    ensures var n := |statParts| - 1;
      var a := MatchAnchored(Compile(dynParts, prefix).value.pattern, Render(prefix, ChopLast(statParts))).Some?;
      && (!IsDynamic(dynParts[n]) ==> (a <==> LiteralsAgree(dynParts, ChopLast(statParts))))
      && (IsDynamic(dynParts[n]) && a ==> LiteralsAgree(dynParts, statParts))
  {
    CompileProperties(dynParts, prefix);
    var p := Compile(dynParts, prefix).value.pattern;
    var n := |statParts| - 1;
    var chopped := ChopLast(statParts);
    assert forall i :: 0 <= i < n ==> chopped[i] == statParts[i];
    AnchoredOnRendered(p, chopped);
    FitsAgree(dynParts, prefix, chopped);
    if !IsDynamic(dynParts[n]) {
      AgreeFits(dynParts, prefix, chopped);
    }
  }

  /** The rendered path ends with the last segment, and without its final character it is the rendering of `ChopLast`. */
  lemma RenderLast(prefix: string, parts: seq<string>)
    requires parts != [] && parts[|parts| - 1] != ""
    ensures var path := Render(prefix, parts); var last := parts[|parts| - 1];
      && |path| > 0 && path[|path| - 1] == last[|last| - 1]
      && path[..|path| - 1] == Render(prefix, ChopLast(parts))
  {
    var n := |parts| - 1;
    var last := parts[n];
    assert parts == parts[..n] + [last];
    assert ChopLast(parts) == parts[..n] + [last[..|last| - 1]];
    RenderSnoc(prefix, parts[..n], last);
    RenderSnoc(prefix, parts[..n], last[..|last| - 1]);
    var head := Render(prefix, parts[..n]) + "/";
    assert Render(prefix, parts) == head + last;
    assert Render(prefix, ChopLast(parts)) == head + last[..|last| - 1];
  }

  /** For slash-free pieces, the anchored matcher accepts their rendering exactly when they fit. */
  lemma AnchoredOnRendered(p: CompiledPattern, pieces: seq<string>)
    requires |pieces| == |p.matchers| > 0
    requires forall i :: 0 <= i < |pieces| ==> '/' !in pieces[i]
    requires forall i :: 0 <= i < |p.matchers| && p.matchers[i].Literal? ==> '/' !in p.matchers[i].text
    ensures MatchAnchored(p, Render(p.prefix, pieces)).Some? <==> Fits(p.matchers, pieces)
  {
    var path := Render(p.prefix, pieces);
    if Fits(p.matchers, pieces) {
      AnchoredRendered(p, pieces);
    }
    if MatchAnchored(p, path).Some? {
      AnchoredDecomposes(p, path, MatchAnchored(p, path).value);
      var other :| RenderedBy(p, path, other) && MatchAnchored(p, path).value == CapturesOf(p.matchers, other);
      forall i | 0 <= i < |other| ensures '/' !in other[i] {
        assert FitsOne(p.matchers[i], other[i]);
      }
      RenderInjective(p.prefix, other, pieces);
    }
  }

  /** Pieces that fit a compiled route agree with it on its literal segments. */
  lemma FitsAgree(parts: seq<string>, prefix: string, pieces: seq<string>)
    requires Compile(parts, prefix).Success? && parts != []
    ensures Fits(Compile(parts, prefix).value.pattern.matchers, pieces) ==> LiteralsAgree(parts, pieces)
  {
    CompileProperties(parts, prefix);
    var ms := Compile(parts, prefix).value.pattern.matchers;
    if Fits(ms, pieces) {
      forall i | 0 <= i < |parts| && !IsDynamic(parts[i]) ensures parts[i] == pieces[i] {
        assert FitsOne(ms[i], pieces[i]);
      }
    }
  }

  /** Slash-free pieces that agree on the literal segments, non-empty at the dynamic ones, fit. */
  lemma AgreeFits(parts: seq<string>, prefix: string, pieces: seq<string>)
    requires Compile(parts, prefix).Success? && parts != [] && |pieces| == |parts|
    requires forall i :: 0 <= i < |pieces| ==> '/' !in pieces[i]
    requires forall i :: 0 <= i < |pieces| && IsDynamic(parts[i]) ==> pieces[i] != ""
    ensures LiteralsAgree(parts, pieces) ==> Fits(Compile(parts, prefix).value.pattern.matchers, pieces)
  {
    CompileProperties(parts, prefix);
    var ms := Compile(parts, prefix).value.pattern.matchers;
    if LiteralsAgree(parts, pieces) {
      forall i | 0 <= i < |ms| ensures FitsOne(ms[i], pieces[i]) {
        if IsDynamic(parts[i]) {
          assert ms[i] == Capture;
        } else {
          assert ms[i] == Literal(parts[i]);
        }
      }
    }
  }

  /** Slash-free pieces of the same number are recovered from their rendering. */
  lemma RenderInjective(prefix: string, a: seq<string>, b: seq<string>)
    requires |a| == |b| > 0
    requires forall i :: 0 <= i < |a| ==> '/' !in a[i]
    requires forall i :: 0 <= i < |b| ==> '/' !in b[i]
    requires Render(prefix, a) == Render(prefix, b)
    ensures a == b
  {
    var head := "/" + prefix + "/";
    assert Render(prefix, a) == head + Join(a, "/");
    assert Render(prefix, b) == head + Join(b, "/");
    assert Join(a, "/") == (head + Join(a, "/"))[|head|..];
    JoinInjective(a, b);
  }

  lemma {:induction false} JoinInjective(a: seq<string>, b: seq<string>)
    requires |a| == |b| > 0
    requires forall i :: 0 <= i < |a| ==> '/' !in a[i]
    requires forall i :: 0 <= i < |b| ==> '/' !in b[i]
    requires Join(a, "/") == Join(b, "/")
    ensures a == b
  {
    if |a| == 1 {
    } else {
      var ra, rb := Join(a[1..], "/"), Join(b[1..], "/");
      assert Join(a, "/") == a[0] + "/" + ra;
      assert Join(b, "/") == b[0] + "/" + rb;
      SegmentEndSlashFree(a[0], ra);
      SegmentEndSlashFree(b[0], rb);
      var s := Join(a, "/");
      assert a[0] == s[..|a[0]|] && b[0] == s[..|b[0]|];
      assert ra == s[|a[0]| + 1..] && rb == s[|b[0]| + 1..];
      JoinInjective(a[1..], b[1..]);
      assert a == [a[0]] + a[1..] && b == [b[0]] + b[1..];
    }
  }
}
