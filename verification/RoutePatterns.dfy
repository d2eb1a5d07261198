/**
 What a registered string means (internal/compat/jellyfin/routefold.go): the method up to the first
 blank plays no part, empty pieces are skipped, a piece in braces is a parameter; and what the built trie
 therefore does with a path.
 */
module RoutePatterns {
  import opened Text
  import opened Lists
  import opened RouteSpec
  import opened RouteFold
  import opened RouteWalk
  import opened RoutePaths

  /** A piece "{...}". */
  predicate Braced(piece: string)
  {
    piece != "" && piece[0] == '{' && piece[|piece| - 1] == '}'
  }

  /** Each piece stands for itself, but for the braced ones. */
  ghost predicate Reads(p: Pattern, pieces: seq<string>)
  {
    |p| == |pieces| && forall i :: 0 <= i < |p| ==> p[i] == if Braced(pieces[i]) then Param else Literal(pieces[i])
  }

  predicate NonEmpty(piece: string)
  {
    piece != ""
  }

  // ---- splitting ----

  lemma {:induction false} SegmentsConcat(a: seq<string>, b: seq<string>)
    ensures Segments(a + b) == Segments(a) + Segments(b)
  {
    if b == [] {
      assert a + b == a;
    } else {
      assert (a + b)[..|a + b| - 1] == a + b[..|b| - 1];
      SegmentsConcat(a, b[..|b| - 1]);
    }
  }

  lemma NoSegment()
    ensures Segments([""]) == []
  {
    assert [""][..0] == [];
  }

  lemma SplitAt(first: string, rest: string)
    requires '/' !in first
    ensures Split(first + ['/'] + rest, '/') == [first] + Split(rest, '/')
    ensures Split(first, '/') == [first]
  {
    hide Cut;
    CutAtFirst(first, rest, '/');
  }

  lemma SplitLeading(s: string)
    requires s != "" && s[0] == '/'
    ensures Split(s, '/') == [""] + Split(s[1..], '/')
  {
    hide Split;
    assert s == "" + ['/'] + s[1..];
    SplitAt("", s[1..]);
  }

  lemma {:induction false} SplitTrailing(s: string)
    ensures Split(s + "/", '/') == Split(s, '/') + [""]
    decreases |s|
  {
    hide Split, Cut;
    var c := Cut(s, '/');
    if c.found {
      assert s + "/" == c.before + ['/'] + (c.after + "/");
      SplitAt(c.before, c.after + "/");
      SplitAt(c.before, c.after);
      SplitTrailing(c.after);
    } else {
      assert s + "/" == s + ['/'] + "";
      SplitAt(s, "");
      SplitAt("", "");
    }
  }

  lemma {:induction false} LeftTrimmed(s: string)
    ensures Segments(Split(TrimLeft(s, '/'), '/')) == Segments(Split(s, '/'))
  {
    if s != "" && s[0] == '/' {
      SplitLeading(s);
      NoSegment();
      SegmentsConcat([""], Split(s[1..], '/'));
      LeftTrimmed(s[1..]);
    }
  }

  lemma {:induction false} RightTrimmed(s: string)
    ensures Segments(Split(TrimRight(s, '/'), '/')) == Segments(Split(s, '/'))
  {
    if s != "" && s[|s| - 1] == '/' {
      var init := s[..|s| - 1];
      assert s == init + "/";
      SplitTrailing(init);
      NoSegment();
      SegmentsConcat(Split(init, '/'), [""]);
      RightTrimmed(init);
    }
  }

  lemma {:induction false} SegmentsRead(pieces: seq<string>)
    ensures Reads(Segments(pieces), Filter(NonEmpty, pieces))
  {
    if pieces != [] {
      SegmentsRead(pieces[..|pieces| - 1]);
    }
  }

  lemma PathReads(pieces: seq<string>)
    requires pieces != [] && Free(pieces, '/')
    ensures Reads(Segments(Pieces(Join(pieces, '/'))), Filter(NonEmpty, pieces))
  {
    hide Filter, Segments, Split, Join, TrimLeft, TrimRight, Reads;
    LeftTrimmed(Join(pieces, '/'));
    RightTrimmed(TrimLeft(Join(pieces, '/'), '/'));
    SplitJoin(pieces, '/');
    SegmentsRead(pieces);
  }

  // ---- the registered string ----

  /** "GET /Items/{id}": the method, whatever it is, and empty pieces, wherever they are, play no part. */
  lemma PatternReads(method_: string, pieces: seq<string>)
    requires ' ' !in method_ && pieces != [] && Free(pieces, '/')
    ensures Reads(ParsePattern(method_ + " " + Join(pieces, '/')), Filter(NonEmpty, pieces))
  {
    hide Filter, Segments, Pieces, Join, Reads;
    CutAtFirst(method_, Join(pieces, '/'), ' ');
    PathReads(pieces);
  }

  /** Without a blank the whole string is the path. */
  lemma BareReads(pieces: seq<string>)
    requires ' ' !in Join(pieces, '/') && pieces != [] && Free(pieces, '/')
    ensures Reads(ParsePattern(Join(pieces, '/')), Filter(NonEmpty, pieces))
  {
    hide Filter, Segments, Pieces, Join, Reads;
    PathReads(pieces);
  }

  /** A method, a blank, and an absolute path of these pieces. */
  function Registered(method_: string, pieces: seq<string>): string
  {
    method_ + " /" + Join(pieces, '/')
  }

  /** The usual form has exactly its pieces. */
  lemma RegisteredReads(method_: string, pieces: seq<string>)
    requires ' ' !in method_ && Proper(pieces)
    ensures Reads(ParsePattern(Registered(method_, pieces)), pieces)
  {
    hide Filter, Reads;
    var all := [""] + pieces;
    assert all[1..] == pieces;
    Assoc(method_, " ", "/" + Join(pieces, '/'));
    assert method_ + " " + Join(all, '/') == Registered(method_, pieces);
    assert Free(all, '/');
    PatternReads(method_, all);
    assert Filter(NonEmpty, all) == pieces by {
      FilterConcat(NonEmpty, [""], pieces);
      FilterNone(NonEmpty, [""]);
      FilterAll(NonEmpty, pieces);
    }
  }

  // ---- precedence and conflicts ----

  /** The literal goes first at the first place where the two differ in kind, as far as both go. */
  lemma {:induction false} BeforeExactly(p: Pattern, q: Pattern)
    ensures Before(p, q) <==>
      exists i :: 0 <= i < |p| && i < |q| && p[i].Literal? && q[i].Param?
                  && forall j :: 0 <= j < i ==> (p[j].Literal? <==> q[j].Literal?)
  {
    if |p| > 0 && |q| > 0 && p[0].Literal? == q[0].Literal? {
      BeforeExactly(p[1..], q[1..]);
      if Before(p[1..], q[1..]) {
        var i :| 0 <= i < |p[1..]| && i < |q[1..]| && p[1..][i].Literal? && q[1..][i].Param?
          && forall j :: 0 <= j < i ==> (p[1..][j].Literal? <==> q[1..][j].Literal?);
        assert p[i + 1].Literal? && q[i + 1].Param?;
        assert forall j :: 1 <= j < i + 1 ==> p[j] == p[1..][j - 1] && q[j] == q[1..][j - 1];
      }
      if i :| 0 <= i < |p| && i < |q| && p[i].Literal? && q[i].Param?
              && forall j :: 0 <= j < i ==> (p[j].Literal? <==> q[j].Literal?) {
        assert p[1..][i - 1].Literal? && q[1..][i - 1].Param?;
        assert forall j :: 0 <= j < i - 1 ==> p[1..][j] == p[j + 1] && q[1..][j] == q[j + 1];
      }
    } else if |p| > 0 && |q| > 0 && p[0].Literal? {
      assert p[0].Literal? && q[0].Param?;
    }
  }

  /** Two pieces that lead to one node: both parameters, or literals that differ by case at most. */
  ghost predicate SameNode(lower: char -> char, a: string, b: string)
  {
    if Braced(a) || Braced(b) then Braced(a) && Braced(b) else Lower(lower, a) == Lower(lower, b)
  }

  /** The first place where two lists of pieces register different spellings of one literal. */
  ghost predicate Clash(lower: char -> char, a: seq<string>, b: seq<string>)
  {
    exists i :: 0 <= i < |a| && i < |b| && ClashAt(lower, a, b, i)
  }

  ghost predicate ClashAt(lower: char -> char, a: seq<string>, b: seq<string>, i: nat)
    requires i < |a| && i < |b|
  {
    !Braced(a[i]) && !Braced(b[i]) && a[i] != b[i] && forall j :: 0 <= j <= i ==> SameNode(lower, a[j], b[j])
  }

  lemma ConflictsRead(lower: char -> char, p: Pattern, q: Pattern, a: seq<string>, b: seq<string>)
    requires Reads(p, a) && Reads(q, b)
    ensures Conflict(lower, p, q) <==> Clash(lower, a, b)
  {
    hide ConflictAt, ClashAt;
    forall i | 0 <= i < |p| && i < |q|
      ensures ConflictAt(lower, p, q, i) <==> ClashAt(lower, a, b, i)
    {
      ConflictReadAt(lower, p, q, a, b, i);
    }
  }

  lemma ConflictReadAt(lower: char -> char, p: Pattern, q: Pattern, a: seq<string>, b: seq<string>, i: nat)
    requires Reads(p, a) && Reads(q, b) && i < |p| && i < |q|
    ensures ConflictAt(lower, p, q, i) <==> ClashAt(lower, a, b, i)
  {
    hide Lower, Braced, SameNode;
    StepsAgree(lower, p, q, a, b, i);
  }

  lemma StepsAgree(lower: char -> char, p: Pattern, q: Pattern, a: seq<string>, b: seq<string>, i: nat)
    requires Reads(p, a) && Reads(q, b) && i < |p| && i < |q|
    ensures Steps(lower, p)[..i + 1] == Steps(lower, q)[..i + 1] <==>
      forall j :: 0 <= j <= i ==> SameNode(lower, a[j], b[j])
  {
    hide Lower, Braced;
    var s, t := Steps(lower, p)[..i + 1], Steps(lower, q)[..i + 1];
    assert forall j :: 0 <= j <= i ==> s[j] == StepOf(lower, p[j]) && t[j] == StepOf(lower, q[j]);
    assert forall j :: 0 <= j <= i ==> (s[j] == t[j] <==> SameNode(lower, a[j], b[j]));
    if forall j :: 0 <= j <= i ==> SameNode(lower, a[j], b[j]) {
      assert s == t;
    }
  }

  /** Registered strings, given by their pieces. */
  ghost predicate AllRegistered(patterns: seq<string>, methods: seq<string>, pieces: seq<seq<string>>)
  {
    && |patterns| == |methods| == |pieces|
    && forall k :: 0 <= k < |patterns| ==>
         ' ' !in methods[k] && Proper(pieces[k]) && patterns[k] == Registered(methods[k], pieces[k])
  }

  /** Registering fails exactly when two of the paths clash, whatever their methods. */
  lemma BuildsExactly(lower: char -> char, patterns: seq<string>, methods: seq<string>, pieces: seq<seq<string>>)
    requires AllRegistered(patterns, methods, pieces)
    ensures ConflictFree(lower, Routes(patterns)) <==>
      forall k, l :: 0 <= k < |pieces| && 0 <= l < |pieces| ==> !Clash(lower, pieces[k], pieces[l])
  {
    hide Clash, Conflict, Reads, Proper;
    var routes := Routes(patterns);
    forall k, l | 0 <= k < |pieces| && 0 <= l < |pieces|
      ensures Conflict(lower, routes[k], routes[l]) <==> Clash(lower, pieces[k], pieces[l])
    {
      RegisteredReads(methods[k], pieces[k]);
      RegisteredReads(methods[l], pieces[l]);
      ConflictsRead(lower, routes[k], routes[l], pieces[k], pieces[l]);
    }
    assert forall p :: p in routes <==> exists k :: 0 <= k < |routes| && routes[k] == p;
  }

  // ---- the fold, from registered strings ----

  /** A path is a registered path but for the casing of its literals and the values of its parameters. */
  ghost predicate Fits(lower: char -> char, pieces: seq<string>, segs: seq<string>)
  {
    |pieces| == |segs| &&
    forall i :: 0 <= i < |pieces| && !Braced(pieces[i]) ==> Lower(lower, pieces[i]) == Lower(lower, segs[i])
  }

  lemma FitsMatches(lower: char -> char, p: Pattern, pieces: seq<string>, segs: seq<string>)
    requires Reads(p, pieces)
    ensures Matches(lower, p, segs) <==> Fits(lower, pieces, segs)
  {
    hide Lower, Braced;
  }

  /** The registered spelling of a path: literals as registered, values as they came. */
  ghost predicate Respelled(pieces: seq<string>, segs: seq<string>, result: seq<string>)
  {
    |pieces| == |segs| == |result| &&
    forall i :: 0 <= i < |result| ==> result[i] == if Braced(pieces[i]) then segs[i] else pieces[i]
  }

  /** Where the two paths first differ in kind, the other one has the literal. */
  ghost predicate GoesFirst(a: seq<string>, b: seq<string>)
  {
    exists i :: 0 <= i < |a| && i < |b| && !Braced(a[i]) && Braced(b[i])
                && forall j :: 0 <= j < i ==> (Braced(a[j]) <==> Braced(b[j]))
  }

  lemma GoesBefore(p: Pattern, q: Pattern, a: seq<string>, b: seq<string>)
    requires Reads(p, a) && Reads(q, b)
    ensures Before(p, q) <==> GoesFirst(a, b)
  {
    hide Braced;
    BeforeExactly(p, q);
    assert forall j :: 0 <= j < |p| ==> (p[j].Literal? <==> !Braced(a[j]));
    assert forall j :: 0 <= j < |q| ==> (q[j].Literal? <==> !Braced(b[j]));
    if i :| 0 <= i < |p| && i < |q| && p[i].Literal? && q[i].Param?
            && forall j :: 0 <= j < i ==> (p[j].Literal? <==> q[j].Literal?) {
      assert !Braced(a[i]) && Braced(b[i]);
    }
    if i :| 0 <= i < |a| && i < |b| && !Braced(a[i]) && Braced(b[i])
            && forall j :: 0 <= j < i ==> (Braced(a[j]) <==> Braced(b[j])) {
      assert p[i].Literal? && q[i].Param?;
    }
  }

  /** What reading the strings says of one list of segments. */
  lemma RegisteredMatches(lower: char -> char, patterns: seq<string>, methods: seq<string>, pieces: seq<seq<string>>,
                          k: nat, l: nat, segs: seq<string>)
    requires AllRegistered(patterns, methods, pieces) && k < |patterns| && l < |patterns|
    ensures var routes := Routes(patterns);
      && Reads(routes[l], pieces[l]) && (Matches(lower, routes[l], segs) <==> Fits(lower, pieces[l], segs))
      && (Before(routes[l], routes[k]) <==> GoesFirst(pieces[l], pieces[k]))
  {
    hide Reads, Proper, Fits, Matches, GoesFirst, Before, Registered, ParsePattern;
    RegisteredReads(methods[l], pieces[l]);
    RegisteredReads(methods[k], pieces[k]);
    FitsMatches(lower, Routes(patterns)[l], pieces[l], segs);
    GoesBefore(Routes(patterns)[l], Routes(patterns)[k], pieces[l], pieces[k]);
  }

  lemma RegisteredFirst(lower: char -> char, patterns: seq<string>, methods: seq<string>, pieces: seq<seq<string>>,
                        k: nat, segs: seq<string>)
    requires AllRegistered(patterns, methods, pieces) && k < |patterns| && Fits(lower, pieces[k], segs)
    requires forall l :: 0 <= l < |pieces| && Fits(lower, pieces[l], segs) ==> !GoesFirst(pieces[l], pieces[k])
    ensures IsFirst(lower, Routes(patterns), segs, Routes(patterns)[k])
  {
    hide AllRegistered, Fits, Matches, GoesFirst, Before, ParsePattern, Reads;
    PatternsListed(patterns, methods, pieces);
    var routes := Routes(patterns);
    forall l | 0 <= l < |patterns|
      ensures Matches(lower, routes[l], segs) <==> Fits(lower, pieces[l], segs)
      ensures Before(routes[l], routes[k]) <==> GoesFirst(pieces[l], pieces[k])
    {
      RegisteredMatches(lower, patterns, methods, pieces, k, l, segs);
    }
  }

  lemma PatternsListed(patterns: seq<string>, methods: seq<string>, pieces: seq<seq<string>>)
    requires AllRegistered(patterns, methods, pieces)
    ensures |patterns| == |methods| == |pieces|
  {
  }

  lemma SpellsResult(lower: char -> char, p: Pattern, pieces: seq<string>, segs: seq<string>, result: seq<string>)
    requires Reads(p, pieces) && Respelled(pieces, segs, result)
    ensures |p| == |segs| && Spell(p, segs) == result
  {
    hide Braced;
  }

  /**
   A trie built from registered strings folds a path that fits one of them to that one's spelling, whatever
   the methods, as long as no registered path that fits it too goes first.
   */
  lemma RegisteredFolds(lower: char -> char, root: FoldNode, at: Layout, tree: Tree, patterns: seq<string>,
                        methods: seq<string>, pieces: seq<seq<string>>, k: nat, segs: seq<string>,
                        result: seq<string>)
    requires AllRegistered(patterns, methods, pieces) && k < |patterns|
    requires Reached(lower, root, root, at, tree, Routes(patterns), [])
    requires Proper(segs) && Fits(lower, pieces[k], segs) && Respelled(pieces[k], segs, result)
    requires forall l :: 0 <= l < |pieces| && Fits(lower, pieces[l], segs) ==> !GoesFirst(pieces[l], pieces[k])
    ensures Fold(lower, root, "/" + Join(segs, '/'), at, tree) == "/" + Join(result, '/')
  {
    hide *;
    PatternsListed(patterns, methods, pieces);
    FoldRefinesList(lower, root, "/" + Join(segs, '/'), at, tree, Routes(patterns));
    ReachedIsConflictFree(lower, root, at, tree, Routes(patterns));
    RegisteredFirst(lower, patterns, methods, pieces, k, segs);
    RegisteredMatches(lower, patterns, methods, pieces, k, k, segs);
    SpellsResult(lower, Routes(patterns)[k], pieces[k], segs, result);
    FirstFolds(lower, Routes(patterns), segs, Routes(patterns)[k]);
  }

  lemma FirstFolds(lower: char -> char, routes: seq<Pattern>, segs: seq<string>, p: Pattern)
    requires ConflictFree(lower, routes) && Proper(segs) && IsFirst(lower, routes, segs, p) && |p| == |segs|
    ensures FoldPath(lower, routes, "/" + Join(segs, '/')) == "/" + Join(Spell(p, segs), '/')
  {
    hide ConflictFree, Proper, Matches, Before, Join, Pieces, Conflict;
    BestRouteIsFirst(lower, routes, segs);
    FirstMatchesAgree(lower, routes, segs, p, BestRoute(lower, routes, segs).value);
    FoldedPath(lower, routes, segs);
  }

  lemma FoldedPath(lower: char -> char, routes: seq<Pattern>, segs: seq<string>)
    requires Proper(segs) && BestRoute(lower, routes, segs).Some?
    requires Matches(lower, BestRoute(lower, routes, segs).value, segs)
    ensures FoldPath(lower, routes, "/" + Join(segs, '/')) ==
      "/" + Join(Spell(BestRoute(lower, routes, segs).value, segs), '/')
  {
    hide BestRoute, Pieces;
    PiecesOfPath(segs);
    JoinEnds(segs);
  }

  lemma LiteralFits(lower: char -> char, pieces: seq<string>, segs: seq<string>)
    requires |segs| == |pieces| && forall i :: 0 <= i < |pieces| ==> !Braced(pieces[i])
    requires forall i :: 0 <= i < |segs| ==> Lower(lower, segs[i]) == Lower(lower, pieces[i])
    ensures Fits(lower, pieces, segs) && Respelled(pieces, segs, pieces)
  {
    hide Lower, Braced;
  }

  lemma NothingFirst(a: seq<string>, b: seq<string>)
    requires forall i :: 0 <= i < |b| ==> !Braced(b[i])
    ensures !GoesFirst(a, b)
  {
    hide Braced;
  }

  /** A path registered without parameters is the spelling of every casing of itself, whatever else is registered. */
  lemma LiteralPathFolds(lower: char -> char, root: FoldNode, at: Layout, tree: Tree, patterns: seq<string>,
                         methods: seq<string>, pieces: seq<seq<string>>, k: nat, segs: seq<string>)
    requires AllRegistered(patterns, methods, pieces) && k < |patterns|
    requires Reached(lower, root, root, at, tree, Routes(patterns), [])
    requires forall i :: 0 <= i < |pieces[k]| ==> !Braced(pieces[k][i])
    requires Proper(segs) && |segs| == |pieces[k]|
    requires forall i :: 0 <= i < |segs| ==> Lower(lower, segs[i]) == Lower(lower, pieces[k][i])
    ensures Fold(lower, root, "/" + Join(segs, '/'), at, tree) == "/" + Join(pieces[k], '/')
  {
    hide *;
    PatternsListed(patterns, methods, pieces);
    LiteralFits(lower, pieces[k], segs);
    forall l | 0 <= l < |pieces|
      ensures !GoesFirst(pieces[l], pieces[k])
    {
      NothingFirst(pieces[l], pieces[k]);
    }
    RegisteredFolds(lower, root, at, tree, patterns, methods, pieces, k, segs, pieces[k]);
  }

  /** A path that fits no registered path stays as it is. */
  lemma UnregisteredStays(lower: char -> char, root: FoldNode, at: Layout, tree: Tree, patterns: seq<string>,
                          methods: seq<string>, pieces: seq<seq<string>>, segs: seq<string>)
    requires AllRegistered(patterns, methods, pieces) && Reached(lower, root, root, at, tree, Routes(patterns), [])
    requires Proper(segs) && forall l :: 0 <= l < |pieces| ==> !Fits(lower, pieces[l], segs)
    ensures Fold(lower, root, "/" + Join(segs, '/'), at, tree) == "/" + Join(segs, '/')
  {
    hide Reached, Fold, Proper, Fits, Registered, Matches;
    var routes, path := Routes(patterns), "/" + Join(segs, '/');
    FoldRefinesList(lower, root, path, at, tree, routes);
    PiecesOfPath(segs);
    BestRouteIsFirst(lower, routes, segs);
    forall l | 0 <= l < |patterns|
      ensures !Matches(lower, routes[l], segs)
    {
      RegisteredReads(methods[l], pieces[l]);
      FitsMatches(lower, routes[l], pieces[l], segs);
    }
  }

  // ---- aliases and the stream spelling, spelled out ----

  lemma AliasExactly(casing: Casing, s: string)
    ensures IsAlias(casing, s) <==> EqualFold(casing, s, "emby") || EqualFold(casing, s, "mediabrowser")
  {
    hide EqualFold;
    assert ALIASES[0] == "emby" && ALIASES[1] == "mediabrowser";
  }

  /** "stream." in any casing and one container, not empty and without a dot. */
  lemma StreamFileExactly(casing: Casing, name: string)
    requires forall c :: casing.same('.', c) ==> c == '.'
    ensures IsStreamFile(casing, name) <==>
      |name| > 7 && EqualFold(casing, name[..6], "stream") && name[6] == '.' && '.' !in name[7..]
  {
    var c := Cut(name, '.');
    if |name| > 7 && EqualFold(casing, name[..6], "stream") && name[6] == '.' && '.' !in name[7..] {
      NoDot(casing, name[..6]);
      assert name == name[..6] + ['.'] + name[7..];
      CutAtFirst(name[..6], name[7..], '.');
    }
  }

  lemma NoDot(casing: Casing, s: string)
    requires EqualFold(casing, s, "stream") && forall c :: casing.same('.', c) ==> c == '.'
    ensures '.' !in s
  {
  }
}
