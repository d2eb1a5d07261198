/**
 The spellings a request path may arrive in (internal/compat/jellyfin/routes.go):
 one legacy alias, trailing slashes and a container extension come off before
 the fold, and the two together rewrite every spelling of a route to one path.
 */
module RoutePaths {
  import opened Text
  import opened RouteSpec

  const ALIASES: seq<string> := ["emby", "mediabrowser"]

  predicate IsAlias(casing: Casing, s: string)
  {
    exists i :: 0 <= i < |ALIASES| && EqualFold(casing, s, ALIASES[i])
  }

  /** What `strings.TrimPrefix(path, "/")` leaves. */
  function TrimPrefixSlash(path: string): string
  {
    if path != "" && path[0] == '/' then path[1..] else path
  }

  /** The path below one leading alias, if there is one. */
  function WithoutAlias(casing: Casing, path: string): string
  {
    var c := Cut(TrimPrefixSlash(path), '/');
    if !IsAlias(casing, c.before) then path
    else if c.found then "/" + c.after else "/"
  }

  method CutLegacyPrefix(casing: Casing, path: string) returns (rest: string, ok: bool)
    ensures rest == WithoutAlias(casing, path)
    ensures ok <==> IsAlias(casing, Cut(TrimPrefixSlash(path), '/').before)
  {
    var c := Cut(TrimPrefixSlash(path), '/');
    for i := 0 to |ALIASES|
      invariant forall k :: 0 <= k < i ==> !EqualFold(casing, c.before, ALIASES[k])
    {
      if EqualFold(casing, c.before, ALIASES[i]) {
        return if c.found then "/" + c.after else "/", true;
      }
    }
    return path, false;
  }

  function LastIndex(s: string, c: char): (i: int)
    ensures -1 <= i < |s|
    ensures i >= 0 ==> s[i] == c
    ensures forall k :: i < k < |s| ==> s[k] != c
  {
    if s == "" then -1
    else if s[|s| - 1] == c then |s| - 1
    else LastIndex(s[..|s| - 1], c)
  }

  /** A last segment spelled "stream.<container>". */
  predicate IsStreamFile(casing: Casing, name: string)
  {
    var c := Cut(name, '.');
    c.found && EqualFold(casing, c.before, "stream") && c.after != "" && '.' !in c.after
  }

  function NormalizeStreamSpelling(casing: Casing, path: string): string
  {
    if !("/videos/" <= Lower(casing.lower, path)) then path
    else
      var slash := LastIndex(path, '/');
      if slash < 0 || !IsStreamFile(casing, path[slash + 1..]) then path
      else path[..slash + 1] + "stream"
  }

  function WithoutTrailingSlashes(path: string): string
  {
    if |path| > 1 && path[|path| - 1] == '/' then
      var trimmed := TrimRight(path, '/');
      if trimmed == "" then "/" else trimmed
    else path
  }

  function Normalized(casing: Casing, path: string): string
  {
    if path == "" || path == "/" then path
    else NormalizeStreamSpelling(casing, WithoutTrailingSlashes(WithoutAlias(casing, path)))
  }

  method NormalizeLegacyPath(casing: Casing, request: string) returns (path: string)
    ensures path == Normalized(casing, request)
  {
    path := request;
    if path == "" || path == "/" {
      return;
    }
    var rest, ok := CutLegacyPrefix(casing, path);
    if ok {
      path := rest;
    }
    if |path| > 1 && path[|path| - 1] == '/' {
      path := TrimRight(path, '/');
      if path == "" {
        path := "/";
      }
    }
    path := NormalizeStreamSpelling(casing, path);
  }

  /** What the mux gets to see. */
  function Rewritten(casing: Casing, routes: seq<Pattern>, path: string): string
  {
    FoldPath(casing.lower, routes, Normalized(casing, path))
  }

  // ---- every spelling of a path ----

  /** No letter folds to the separator. */
  ghost predicate KeepsSlash(casing: Casing)
  {
    && (forall c :: casing.lower(c) == '/' <==> c == '/')
    && (forall c :: casing.same(c, c))
  }

  /** Non-empty segments without a slash: the values and literals a path is made of. */
  ghost predicate Proper(segs: seq<string>)
  {
    |segs| >= 1 && Free(segs, '/') && forall s :: s in segs ==> s != ""
  }

  function Spelling(alias: Option<string>, segs: seq<string>, slashes: nat): string
  {
    (if alias.Some? then "/" + alias.value else "") + "/" + Join(segs, '/') + Repeat('/', slashes)
  }

  /** The stream extension is discarded, and nothing else changes. */
  function WithoutExtension(casing: Casing, segs: seq<string>): (r: seq<string>)
    ensures |r| == |segs|
  {
    if |segs| >= 2 && Lower(casing.lower, segs[0]) == "videos" && IsStreamFile(casing, segs[|segs| - 1])
    then segs[..|segs| - 1] + ["stream"]
    else segs
  }

  lemma {:induction false} JoinEnds(segs: seq<string>)
    requires Proper(segs)
    ensures var j := Join(segs, '/'); j != "" && j[0] != '/' && j[|j| - 1] != '/'
  {
    assert segs[0] in segs;
    if |segs| > 1 {
      assert forall s :: s in segs[1..] ==> s in segs;
      JoinEnds(segs[1..]);
    }
  }

  lemma {:induction false} JoinLast(init: seq<string>, last: string)
    ensures Join(init + [last], '/') == if init == [] then last else Join(init, '/') + "/" + last
  {
    if |init| > 1 {
      JoinLast(init[1..], last);
      assert (init + [last])[1..] == init[1..] + [last];
    } else if |init| == 1 {
      assert (init + [last])[1..] == [last];
    }
  }

  lemma LastIndexUnique(s: string, c: char, i: nat)
    requires i < |s| && s[i] == c && forall k :: i < k < |s| ==> s[k] != c
    ensures LastIndex(s, c) == i
  {
  }

  lemma LastIndexAt(prefix: string, last: string)
    requires '/' !in last
    ensures LastIndex(prefix + "/" + last, '/') == |prefix|
  {
    hide *;
    var s := prefix + "/" + last;
    var n := |prefix|;
    assert s[n] == '/' && s[n + 1..] == last;
    forall k | n < k < |s|
      ensures s[k] != '/'
    {
      assert s[k] == s[n + 1..][k - n - 1];
    }
    LastIndexUnique(s, '/', n);
  }

  lemma LowerConcat(lower: char -> char, a: string, b: string)
    ensures Lower(lower, a + b) == Lower(lower, a) + Lower(lower, b)
  {
  }

  /** A first segment is "videos" exactly when the path starts with it and another follows. */
  lemma VideosPrefix(first: string, rest: string)
    requires '/' !in first
    ensures "videos/" <= first + "/" + rest <==> first == "videos"
    ensures !("videos/" <= first)
  {
    CutAtFirst(first, rest, '/');
    var s := first + ['/'] + rest;
    if "videos/" <= s {
      assert s == "videos" + ['/'] + s[7..];
      CutAtFirst("videos", s[7..], '/');
    }
    assert forall i :: 0 <= i < |first| ==> first[i] != "videos/"[6];
  }

  lemma LowerAround(casing: Casing, a: string, b: string)
    requires KeepsSlash(casing)
    ensures Lower(casing.lower, a + ['/'] + b) == Lower(casing.lower, a) + "/" + Lower(casing.lower, b)
  {
    assert Lower(casing.lower, ['/']) == "/";
    LowerConcat(casing.lower, a + ['/'], b);
    LowerConcat(casing.lower, a, ['/']);
  }

  lemma BelowRoot(casing: Casing, s: string)
    requires KeepsSlash(casing)
    ensures "/videos/" <= Lower(casing.lower, "/" + s) <==> "videos/" <= Lower(casing.lower, s)
  {
    LowerConcat(casing.lower, "/", s);
    var low := Lower(casing.lower, s);
    assert Lower(casing.lower, "/") == "/";
    assert "/videos/" == "/" + "videos/";
    assert ("/" + low)[1..] == low && "/videos/"[1..] == "videos/";
  }

  lemma UnderVideos(casing: Casing, segs: seq<string>)
    requires KeepsSlash(casing) && Proper(segs)
    ensures "/videos/" <= Lower(casing.lower, "/" + Join(segs, '/')) <==>
            |segs| >= 2 && Lower(casing.lower, segs[0]) == "videos"
  {
    var first := segs[0];
    assert first in segs;
    var low := Lower(casing.lower, first);
    assert '/' !in low;
    hide Lower;
    var all := Lower(casing.lower, Join(segs, '/'));
    BelowRoot(casing, Join(segs, '/'));
    if |segs| >= 2 {
      var rest := Join(segs[1..], '/');
      LowerAround(casing, first, rest);
      VideosPrefix(low, Lower(casing.lower, rest));
    } else {
      VideosPrefix(low, "");
    }
  }

  lemma StreamSpellingAt(casing: Casing, prefix: string, last: string)
    requires '/' !in last
    ensures NormalizeStreamSpelling(casing, prefix + "/" + last) ==
            if "/videos/" <= Lower(casing.lower, prefix + "/" + last) && IsStreamFile(casing, last)
            then prefix + "/" + "stream" else prefix + "/" + last
  {
    hide IsStreamFile;
    LastIndexAt(prefix, last);
    var path := prefix + "/" + last;
    assert path[|prefix| + 1..] == last && path[..|prefix| + 1] == prefix + "/";
  }

  lemma StreamSpellingOf(casing: Casing, segs: seq<string>)
    requires KeepsSlash(casing) && Proper(segs)
    ensures NormalizeStreamSpelling(casing, "/" + Join(segs, '/')) == "/" + Join(WithoutExtension(casing, segs), '/')
  {
    hide IsStreamFile, Join;
    UnderVideos(casing, segs);
    if |segs| >= 2 {
      var init, last := segs[..|segs| - 1], segs[|segs| - 1];
      assert segs == init + [last] && last in segs;
      JoinLast(init, last);
      JoinLast(init, "stream");
      StreamSpellingAt(casing, "/" + Join(init, '/'), last);
      var j := Join(init, '/');
      Assoc("/", j, "/" + last);
      Assoc("/" + j, "/", last);
      Assoc(j, "/", last);
      Assoc("/", j, "/" + "stream");
      Assoc("/" + j, "/", "stream");
      Assoc(j, "/", "stream");
    }
  }

  lemma SlashesOf(segs: seq<string>, slashes: nat)
    requires Proper(segs)
    ensures WithoutTrailingSlashes("/" + Join(segs, '/') + Repeat('/', slashes)) == "/" + Join(segs, '/')
  {
    JoinEnds(segs);
    var core := "/" + Join(segs, '/');
    TrimRightRepeat(core, '/', slashes);
    assert slashes == 0 ==> core + Repeat('/', slashes) == core;
  }

  lemma AliasComesOff(casing: Casing, alias: string, rest: string)
    requires IsAlias(casing, alias) && '/' !in alias
    ensures WithoutAlias(casing, "/" + alias + "/" + rest) == "/" + rest
  {
    hide IsAlias;
    var path := "/" + alias + "/" + rest;
    assert path[1..] == alias + ['/'] + rest;
    CutAtFirst(alias, rest, '/');
  }

  lemma AliasOf(casing: Casing, alias: Option<string>, segs: seq<string>, slashes: nat)
    requires Proper(segs)
    requires if alias.Some? then IsAlias(casing, alias.value) && '/' !in alias.value else !IsAlias(casing, segs[0])
    ensures WithoutAlias(casing, Spelling(alias, segs, slashes)) == "/" + Join(segs, '/') + Repeat('/', slashes)
  {
    hide IsAlias, Join, Repeat;
    var rest := Join(segs, '/') + Repeat('/', slashes);
    if alias.Some? {
      AliasComesOff(casing, alias.value, rest);
      Assoc("/" + alias.value + "/", Join(segs, '/'), Repeat('/', slashes));
    } else {
      assert Spelling(alias, segs, slashes) == "/" + rest;
      assert ("/" + rest)[1..] == rest;
      FirstSegment(segs, slashes);
    }
    Assoc("/", Join(segs, '/'), Repeat('/', slashes));
  }

  lemma FirstSegment(segs: seq<string>, slashes: nat)
    requires Proper(segs)
    ensures Cut(Join(segs, '/') + Repeat('/', slashes), '/').before == segs[0]
  {
    assert segs[0] in segs;
    var s := Join(segs, '/') + Repeat('/', slashes);
    if |segs| > 1 {
      assert s == segs[0] + ['/'] + (Join(segs[1..], '/') + Repeat('/', slashes));
      CutAtFirst(segs[0], Join(segs[1..], '/') + Repeat('/', slashes), '/');
    } else if slashes > 0 {
      assert s == segs[0] + ['/'] + Repeat('/', slashes - 1);
      CutAtFirst(segs[0], Repeat('/', slashes - 1), '/');
    } else {
      assert s == segs[0];
    }
  }

  /** Normalising removes one alias, the trailing slashes and a stream extension, and nothing else. */
  lemma NormalizedSpelling(casing: Casing, alias: Option<string>, segs: seq<string>, slashes: nat)
    requires KeepsSlash(casing) && Proper(segs)
    requires if alias.Some? then IsAlias(casing, alias.value) && '/' !in alias.value else !IsAlias(casing, segs[0])
    ensures Normalized(casing, Spelling(alias, segs, slashes)) == "/" + Join(WithoutExtension(casing, segs), '/')
  {
    AliasOf(casing, alias, segs, slashes);
    SlashesOf(segs, slashes);
    StreamSpellingOf(casing, segs);
    JoinEnds(segs);
  }

  lemma PiecesOfPath(segs: seq<string>)
    requires Proper(segs)
    ensures Pieces("/" + Join(segs, '/')) == segs
  {
    JoinEnds(segs);
    var core := Join(segs, '/');
    TrimAround(core, '/', 1, 0);
    assert Repeat('/', 1) + core + Repeat('/', 0) == "/" + core;
    SplitJoin(segs, '/');
  }

  lemma WithoutExtensionProper(casing: Casing, segs: seq<string>)
    requires Proper(segs)
    ensures Proper(WithoutExtension(casing, segs))
  {
    var r := WithoutExtension(casing, segs);
    assert forall s :: s in r ==> s in segs || s == "stream";
  }

  /**
   Every spelling of a registered route reaches the mux as its canonical path: any casing of the
   literals, at most one alias, any trailing slashes, and on the stream route any one extension.
   */
  lemma SpellingsAreRewritten(casing: Casing, routes: seq<Pattern>, p: Pattern, alias: Option<string>,
                              segs: seq<string>, slashes: nat)
    requires KeepsSlash(casing) && Proper(segs) && ConflictFree(casing.lower, routes)
    requires if alias.Some? then IsAlias(casing, alias.value) && '/' !in alias.value else !IsAlias(casing, segs[0])
    requires IsFirst(casing.lower, routes, WithoutExtension(casing, segs), p)
    ensures Rewritten(casing, routes, Spelling(alias, segs, slashes)) ==
      "/" + Join(Spell(p, WithoutExtension(casing, segs)), '/')
  {
    var bare := WithoutExtension(casing, segs);
    NormalizedSpelling(casing, alias, segs, slashes);
    WithoutExtensionProper(casing, segs);
    PiecesOfPath(bare);
    BestRouteIsFirst(casing.lower, routes, bare);
    FirstMatchesAgree(casing.lower, routes, bare, p, BestRoute(casing.lower, routes, bare).value);
    JoinEnds(bare);
  }

  /** Parameter bytes survive exactly when the segment losing its extension is not itself a parameter. */
  lemma ParametersKeptExactly(casing: Casing, p: Pattern, segs: seq<string>)
    requires |p| == |segs| >= 1
    ensures Spell(p, WithoutExtension(casing, segs)) == Spell(p, segs) <==>
            p[|p| - 1].Literal? || WithoutExtension(casing, segs) == segs
  {
    hide IsStreamFile, Lower;
    var bare := WithoutExtension(casing, segs);
    var n := |p| - 1;
    if p[n].Literal? {
      assert forall i :: 0 <= i < n ==> bare[i] == segs[i];
      assert forall i :: 0 <= i <= n ==> Spell(p, bare)[i] == Spell(p, segs)[i];
    } else if bare != segs {
      assert segs[n] != "stream" by {
        assert forall i :: 0 <= i < n ==> bare[i] == segs[i];
      }
      assert Spell(p, bare)[n] != Spell(p, segs)[n];
    }
  }

  /** Every route that a path under videos can reach ends in a literal. */
  ghost predicate VideosEndInLiteral(casing: Casing, routes: seq<Pattern>)
  {
    forall p: Pattern :: p in routes && |p| >= 2 && (p[0].Literal? ==> Lower(casing.lower, p[0].text) == "videos") ==>
      p[|p| - 1].Literal?
  }

  /** With such routes every spelling is rewritten with every parameter byte kept. */
  lemma VideosKeepParameters(casing: Casing, routes: seq<Pattern>, p: Pattern, alias: Option<string>,
                             segs: seq<string>, slashes: nat)
    requires KeepsSlash(casing) && Proper(segs) && ConflictFree(casing.lower, routes) &&
      VideosEndInLiteral(casing, routes)
    requires if alias.Some? then IsAlias(casing, alias.value) && '/' !in alias.value else !IsAlias(casing, segs[0])
    requires IsFirst(casing.lower, routes, WithoutExtension(casing, segs), p)
    ensures Rewritten(casing, routes, Spelling(alias, segs, slashes)) == "/" + Join(Spell(p, segs), '/')
  {
    var bare := WithoutExtension(casing, segs);
    SpellingsAreRewritten(casing, routes, p, alias, segs, slashes);
    hide Rewritten, Spelling, KeepsSlash, IsAlias, Join;
    assert |segs| >= 2 ==> bare[0] == segs[0];
    ParametersKeptExactly(casing, p, segs);
  }

  lemma StreamFile(casing: Casing, container: string)
    requires KeepsSlash(casing) && container != "" && '.' !in container
    ensures IsStreamFile(casing, "stream" + ['.'] + container)
  {
    CutAtFirst("stream", container, '.');
    hide Cut;
    assert EqualFold(casing, "stream", "stream");
  }

  lemma WithoutContainer(casing: Casing, first: string, name: string)
    requires Lower(casing.lower, first) == "videos" && IsStreamFile(casing, name)
    ensures WithoutExtension(casing, [first, name]) == [first, "stream"]
  {
    hide IsStreamFile, Lower;
    assert [first, name][..1] == [first];
  }

  lemma BareVideo(casing: Casing)
    requires KeepsSlash(casing) && Lower(casing.lower, "Videos") == "videos"
    ensures WithoutExtension(casing, ["Videos", "stream.mkv"]) == ["Videos", "stream"]
  {
    hide *;
    VideoStrings();
    StreamFile(casing, "mkv");
    WithoutContainer(casing, "Videos", "stream.mkv");
  }

  const VIDEO_BY_NAME: Pattern := [Literal("Videos"), Param]

  lemma OnlyRouteFirst(lower: char -> char, name: string)
    ensures Matches(lower, VIDEO_BY_NAME, ["Videos", name])
    ensures IsFirst(lower, [VIDEO_BY_NAME], ["Videos", name], VIDEO_BY_NAME)
    ensures Spell(VIDEO_BY_NAME, ["Videos", name]) == ["Videos", name]
  {
    hide Lower, Before;
    BeforeIrreflexive(VIDEO_BY_NAME);
  }

  lemma ProperVideo(casing: Casing)
    ensures Proper(["Videos", "stream.mkv"]) && !IsAlias(casing, "Videos")
  {
    assert '/' !in "Videos" && '/' !in "stream.mkv";
  }

  /** A route under videos that ended in a parameter would lose bytes of its value. */
  lemma ParameterBytesLost(casing: Casing)
    requires KeepsSlash(casing) && Lower(casing.lower, "Videos") == "videos"
    ensures ConflictFree(casing.lower, [VIDEO_BY_NAME])
    ensures Matches(casing.lower, VIDEO_BY_NAME, ["Videos", "stream.mkv"])
    ensures Rewritten(casing, [VIDEO_BY_NAME], "/Videos/stream.mkv") == "/Videos/stream"
  {
    hide *;
    OnlyOneRoute(casing.lower, VIDEO_BY_NAME);
    BareVideo(casing);
    OnlyRouteFirst(casing.lower, "stream");
    OnlyRouteFirst(casing.lower, "stream.mkv");
    ProperVideo(casing);
    SpellingsAreRewritten(casing, [VIDEO_BY_NAME], VIDEO_BY_NAME, None, ["Videos", "stream.mkv"], 0);
    TwoSegments("Videos", "stream.mkv");
    TwoSegments("Videos", "stream");
    VideoStrings();
  }

  lemma VideoStrings()
    ensures "stream" + ['.'] + "mkv" == "stream.mkv" && "mkv" != "" && '.' !in "mkv"
    ensures "/" + "Videos" + "/" + "stream.mkv" == "/Videos/stream.mkv"
    ensures "/" + "Videos" + "/" + "stream" == "/Videos/stream"
  {
  }

  lemma OnlyOneRoute(lower: char -> char, p: Pattern)
    ensures ConflictFree(lower, [p])
  {
  }

  lemma TwoSegments(first: string, second: string)
    ensures Join([first, second], '/') == first + "/" + second
    ensures Spelling(None, [first, second], 0) == "/" + first + "/" + second
    ensures "/" + Join([first, second], '/') == "/" + first + "/" + second
  {
    assert [first, second][1..] == [second];
    assert Repeat('/', 0) == "";
    Assoc("/", first, "/" + second);
    Assoc("/" + first, "/", second);
    Assoc(first, "/", second);
  }

  /** Only one alias comes off: the next one is an ordinary first segment. */
  lemma SecondAliasKept(casing: Casing, alias: string, second: string, segs: seq<string>, slashes: nat)
    requires KeepsSlash(casing) && Proper([second] + segs)
    requires IsAlias(casing, alias) && IsAlias(casing, second) && '/' !in alias &&
      Lower(casing.lower, second) != "videos"
    ensures Normalized(casing, Spelling(Some(alias), [second] + segs, slashes)) == "/" + Join([second] + segs, '/')
  {
    NormalizedSpelling(casing, Some(alias), [second] + segs, slashes);
  }

  /** Folding never invents a match. */
  lemma UnmatchedPathUnchanged(lower: char -> char, routes: seq<Pattern>, path: string)
    requires forall p :: p in routes ==> !Matches(lower, p, Pieces(path))
    ensures FoldPath(lower, routes, path) == path
  {
    BestRouteIsFirst(lower, routes, Pieces(path));
  }

  ghost predicate LiteralsProper(routes: seq<Pattern>)
  {
    forall p: Pattern, i :: p in routes && 0 <= i < |p| && p[i].Literal? ==> p[i].text != "" && '/' !in p[i].text
  }

  lemma {:induction false} SegmentsProper(pieces: seq<string>)
    requires Free(pieces, '/')
    ensures LiteralsProper([Segments(pieces)])
  {
    if pieces != [] {
      var init, last := pieces[..|pieces| - 1], pieces[|pieces| - 1];
      SegmentsProper(init);
      assert last in pieces;
      assert Segments(init) in [Segments(init)];
    }
  }

  lemma RegisteredLiteralsProper(patterns: seq<string>)
    ensures LiteralsProper(Routes(patterns))
  {
    forall p: Pattern, i | p in Routes(patterns) && 0 <= i < |p| && p[i].Literal?
      ensures p[i].text != "" && '/' !in p[i].text
    {
      var n :| 0 <= n < |patterns| && p == ParsePattern(patterns[n]);
      SegmentsProper(Pieces(PatternPath(patterns[n])));
      assert p in [p];
    }
  }

  /** Re-walking a canonical path finds the same route and changes nothing. */
  lemma CanonicalIsFixed(lower: char -> char, routes: seq<Pattern>, segs: seq<string>)
    requires ConflictFree(lower, routes) && Canonical(lower, routes, segs).Some?
    ensures var c := Canonical(lower, routes, segs).value; Canonical(lower, routes, c) == Some(c)
  {
    BestRouteIsFirst(lower, routes, segs);
    var p := BestRoute(lower, routes, segs).value;
    var c := Spell(p, segs);
    forall i | 0 <= i < |c|
      ensures Lower(lower, c[i]) == Lower(lower, segs[i])
    {
    }
    assert forall q :: Matches(lower, q, c) <==> Matches(lower, q, segs);
    assert IsFirst(lower, routes, c, p);
    BestRouteIsFirst(lower, routes, c);
    FirstMatchesAgree(lower, routes, c, p, BestRoute(lower, routes, c).value);
    assert Spell(p, c) == c;
  }

  lemma {:induction false} LastOfSplit(s: string)
    requires s != "" && s[|s| - 1] != '/'
    ensures var parts := Split(s, '/'); parts[|parts| - 1] != ""
    decreases |s|
  {
    hide Cut, Join;
    var c := Cut(s, '/');
    if c.found {
      LastAfter(c.before, c.after);
      LastOfSplit(c.after);
    }
  }

  lemma LastAfter(before: string, after: string)
    requires var s := before + ['/'] + after; s[|s| - 1] != '/'
    ensures after != "" && after[|after| - 1] != '/'
  {
    assert after == "" ==> before + ['/'] + after == before + ['/'];
  }

  lemma SplitEnds(s: string)
    requires s != "" && s[0] != '/' && s[|s| - 1] != '/'
    ensures var parts := Split(s, '/'); parts[0] != "" && parts[|parts| - 1] != ""
  {
    LastOfSplit(s);
  }

  /** A canonical path with slash-free, non-empty outer segments folds to itself. */
  lemma FoldedIsFixed(lower: char -> char, routes: seq<Pattern>, segs: seq<string>, c: seq<string>)
    requires ConflictFree(lower, routes) && Canonical(lower, routes, segs) == Some(c)
    requires |c| >= 1 && c[0] != "" && c[|c| - 1] != "" && Free(c, '/')
    ensures FoldPath(lower, routes, "/" + Join(c, '/')) == "/" + Join(c, '/')
  {
    hide Pieces, Join, Canonical;
    FoldedPieces(c);
    CanonicalIsFixed(lower, routes, segs);
  }

  lemma SpellFree(lower: char -> char, routes: seq<Pattern>, p: Pattern, segs: seq<string>)
    requires LiteralsProper(routes) && p in routes && |p| == |segs| && Free(segs, '/')
    ensures Free(Spell(p, segs), '/')
    ensures forall i :: 0 <= i < |p| && segs[i] != "" ==> Spell(p, segs)[i] != ""
  {
    var c := Spell(p, segs);
    forall s | s in c
      ensures '/' !in s
    {
      var i :| 0 <= i < |c| && c[i] == s;
      assert segs[i] in segs;
    }
  }

  lemma SpellEnds(lower: char -> char, routes: seq<Pattern>, p: Pattern, segs: seq<string>)
    requires LiteralsProper(routes) && p in routes && |p| == |segs| >= 1 && Free(segs, '/')
    requires segs[0] != "" && segs[|segs| - 1] != ""
    ensures var c := Spell(p, segs); |c| >= 1 && c[0] != "" && c[|c| - 1] != "" && Free(c, '/')
  {
    hide LiteralsProper, Free, Spell;
    SpellFree(lower, routes, p, segs);
  }

  lemma CanonicalOf(lower: char -> char, routes: seq<Pattern>, segs: seq<string>) returns (p: Pattern)
    requires Canonical(lower, routes, segs).Some?
    ensures p in routes && Matches(lower, p, segs) && Canonical(lower, routes, segs) == Some(Spell(p, segs))
  {
    BestRouteIsFirst(lower, routes, segs);
    p := BestRoute(lower, routes, segs).value;
  }

  lemma FoldedCore(lower: char -> char, routes: seq<Pattern>, core: string, c: seq<string>)
    requires ConflictFree(lower, routes) && LiteralsProper(routes)
    requires core != "" && core[0] != '/' && core[|core| - 1] != '/'
    requires Canonical(lower, routes, Split(core, '/')) == Some(c)
    ensures FoldPath(lower, routes, "/" + Join(c, '/')) == "/" + Join(c, '/')
  {
    hide LiteralsProper, ConflictFree, Canonical, FoldPath, Spell, Join, Split;
    var segs := Split(core, '/');
    var p := CanonicalOf(lower, routes, segs);
    SplitEnds(core);
    SpellEnds(lower, routes, p, segs);
    FoldedIsFixed(lower, routes, segs, c);
  }

  lemma FoldedRoot(lower: char -> char, routes: seq<Pattern>, c: seq<string>)
    requires LiteralsProper(routes) && Canonical(lower, routes, [""]) == Some(c)
    ensures "/" + Join(c, '/') == "/"
  {
    hide LiteralsProper, Canonical, Spell;
    var p := CanonicalOf(lower, routes, [""]);
    EmptySegmentKept(lower, routes, p);
  }

  lemma PiecesOfEmpty(path: string)
    requires Trim(path, '/') == ""
    ensures Pieces(path) == [""]
  {
  }

  /** Folding a folded path changes nothing, whatever the request was. */
  lemma FoldIsIdempotent(lower: char -> char, routes: seq<Pattern>, path: string)
    requires ConflictFree(lower, routes) && LiteralsProper(routes)
    ensures FoldPath(lower, routes, FoldPath(lower, routes, path)) == FoldPath(lower, routes, path)
  {
    hide LiteralsProper, ConflictFree, Canonical, Join, Split, Trim;
    var canonical := Canonical(lower, routes, Pieces(path));
    if path != "" && path != "/" && canonical.Some? {
      TrimEnds(path);
      if Trim(path, '/') == "" {
        PiecesOfEmpty(path);
        FoldedRoot(lower, routes, canonical.value);
      } else {
        FoldedCore(lower, routes, Trim(path, '/'), canonical.value);
      }
    }
  }

  /** An empty segment can only have matched a parameter. */
  lemma EmptySegmentKept(lower: char -> char, routes: seq<Pattern>, p: Pattern)
    requires LiteralsProper(routes) && p in routes && Matches(lower, p, [""])
    ensures Spell(p, [""]) == [""]
  {
    assert p[0].Literal? ==> |Lower(lower, p[0].text)| > 0;
  }

  lemma TrimEnds(path: string)
    ensures var r := Trim(path, '/'); r == "" || (r[0] != '/' && r[|r| - 1] != '/')
  {
  }

  lemma {:induction false} JoinOuter(parts: seq<string>)
    requires |parts| >= 1 && parts[0] != "" && parts[|parts| - 1] != "" && Free(parts, '/')
    ensures var j := Join(parts, '/'); j != "" && j[0] != '/' && j[|j| - 1] != '/'
  {
    var init, last := parts[..|parts| - 1], parts[|parts| - 1];
    assert parts == init + [last] && last in parts && parts[0] in parts;
    assert last[|last| - 1] in last && parts[0][0] in parts[0];
    JoinLast(init, last);
  }

  lemma FoldedPieces(c: seq<string>)
    requires |c| >= 1 && c[0] != "" && c[|c| - 1] != "" && Free(c, '/')
    ensures Pieces("/" + Join(c, '/')) == c && "/" + Join(c, '/') != "/"
  {
    JoinOuter(c);
    var core := Join(c, '/');
    TrimAround(core, '/', 1, 0);
    assert Repeat('/', 1) + core + Repeat('/', 0) == "/" + core;
    SplitJoin(c, '/');
  }
}
