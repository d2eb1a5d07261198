/**
 What the route fold means, without a trie: a list of registered patterns, each
 tried against a path with literals compared ignoring case.
 */
module RouteSpec {
  import opened Text

  datatype Segment = Literal(text: string) | Param

  /** One step down the trie: a lowercased literal, or any value. */
  datatype Step = Lit(key: string) | Wild

  type Pattern = seq<Segment>

  /** One piece of a registered pattern; a piece in braces is a parameter. */
  function ParseSegment(piece: string): Segment
    requires piece != ""
  {
    if piece[0] == '{' && piece[|piece| - 1] == '}' then Param else Literal(piece)
  }

  /** The segments of a pattern, empty pieces skipped. */
  function Segments(pieces: seq<string>): Pattern
  {
    if pieces == [] then []
    else
      var init, last := Segments(pieces[..|pieces| - 1]), pieces[|pieces| - 1];
      if last == "" then init else init + [ParseSegment(last)]
  }

  /** The path of "METHOD /Path/{param}"; without a space the whole string is the path. */
  function PatternPath(pattern: string): string
  {
    var c := Cut(pattern, ' ');
    if c.found then c.after else pattern
  }

  function Pieces(path: string): seq<string>
  {
    Split(Trim(path, '/'), '/')
  }

  function ParsePattern(pattern: string): Pattern
  {
    Segments(Pieces(PatternPath(pattern)))
  }

  function Routes(patterns: seq<string>): (r: seq<Pattern>)
    ensures |r| == |patterns| && forall i :: 0 <= i < |r| ==> r[i] == ParsePattern(patterns[i])
  {
    seq(|patterns|, i requires 0 <= i < |patterns| => ParsePattern(patterns[i]))
  }

  function StepOf(lower: char -> char, s: Segment): Step
  {
    match s
    case Literal(t) => Lit(Lower(lower, t))
    case Param => Wild
  }

  function Steps(lower: char -> char, p: Pattern): (r: seq<Step>)
    ensures |r| == |p| && forall i :: 0 <= i < |p| ==> r[i] == StepOf(lower, p[i])
  {
    seq(|p|, i requires 0 <= i < |p| => StepOf(lower, p[i]))
  }

  predicate Matches(lower: char -> char, p: Pattern, segs: seq<string>)
  {
    |p| == |segs| &&
    forall i :: 0 <= i < |p| ==> p[i].Literal? ==> Lower(lower, p[i].text) == Lower(lower, segs[i])
  }

  /** The canonical spelling: literals as registered, values byte for byte. */
  function Spell(p: Pattern, segs: seq<string>): (r: seq<string>)
    requires |p| == |segs|
    ensures |r| == |p|
    ensures forall i :: 0 <= i < |p| ==> r[i] == if p[i].Literal? then p[i].text else segs[i]
  {
    seq(|p|, i requires 0 <= i < |p| => if p[i].Literal? then p[i].text else segs[i])
  }

  /** net/http's precedence: at the first position where the two patterns differ in kind, the literal goes first. */
  predicate Before(p: Pattern, q: Pattern)
  {
    |p| > 0 && |q| > 0 &&
    if p[0].Literal? && q[0].Param? then true
    else p[0].Literal? == q[0].Literal? && Before(p[1..], q[1..])
  }

  ghost predicate SameKinds(p: Pattern, q: Pattern)
  {
    |p| == |q| && forall i :: 0 <= i < |p| ==> p[i].Literal? == q[i].Literal?
  }

  /** Two literals at one trie node that differ only by case. */
  ghost predicate Conflict(lower: char -> char, p: Pattern, q: Pattern)
  {
    exists i :: 0 <= i < |p| && i < |q| && ConflictAt(lower, p, q, i)
  }

  ghost predicate ConflictAt(lower: char -> char, p: Pattern, q: Pattern, i: nat)
    requires i < |p| && i < |q|
  {
    Steps(lower, p)[..i + 1] == Steps(lower, q)[..i + 1] && p[i].Literal? && q[i].Literal? && p[i].text != q[i].text
  }

  ghost predicate ConflictFree(lower: char -> char, routes: seq<Pattern>)
  {
    forall p, q :: p in routes && q in routes ==> !Conflict(lower, p, q)
  }

  /** Try every pattern in turn, keeping the one that goes first. */
  function BestRoute(lower: char -> char, routes: seq<Pattern>, segs: seq<string>): (r: Option<Pattern>)
  {
    if routes == [] then None
    else
      var last := routes[|routes| - 1];
      var best := BestRoute(lower, routes[..|routes| - 1], segs);
      if Matches(lower, last, segs) && (best.None? || Before(last, best.value)) then Some(last) else best
  }

  ghost predicate IsFirst(lower: char -> char, routes: seq<Pattern>, segs: seq<string>, p: Pattern)
  {
    p in routes && Matches(lower, p, segs) &&
    forall q :: q in routes && Matches(lower, q, segs) ==> !Before(q, p)
  }

  lemma {:induction false} BeforeTransitive(p: Pattern, q: Pattern, r: Pattern)
    requires |p| == |q| == |r| && !Before(q, p) && Before(r, p)
    ensures !Before(q, r)
  {
    if p[0].Literal? == q[0].Literal? == r[0].Literal? {
      BeforeTransitive(p[1..], q[1..], r[1..]);
    }
  }

  lemma {:induction false} BeforeIrreflexive(p: Pattern)
    ensures !Before(p, p)
  {
    if p != [] {
      BeforeIrreflexive(p[1..]);
    }
  }

  /** Precedence is total on the shape of a pattern. */
  lemma {:induction false} BeforeTotal(p: Pattern, q: Pattern)
    requires |p| == |q| && !Before(p, q) && !Before(q, p)
    ensures SameKinds(p, q)
  {
    if p != [] {
      BeforeTotal(p[1..], q[1..]);
      forall i | 0 <= i < |p|
        ensures p[i].Literal? == q[i].Literal?
      {
        if i > 0 {
          assert p[1..][i - 1] == p[i] && q[1..][i - 1] == q[i];
        }
      }
    }
  }

  /** The scan finds a first match exactly when some registered pattern matches. */
  lemma {:induction false} BestRouteIsFirst(lower: char -> char, routes: seq<Pattern>, segs: seq<string>)
    ensures BestRoute(lower, routes, segs).Some? <==> exists p :: p in routes && Matches(lower, p, segs)
    ensures BestRoute(lower, routes, segs).Some? ==> IsFirst(lower, routes, segs, BestRoute(lower, routes, segs).value)
  {
    if routes != [] {
      var init, last := routes[..|routes| - 1], routes[|routes| - 1];
      assert routes == init + [last];
      BestRouteIsFirst(lower, init, segs);
      var best := BestRoute(lower, init, segs);
      BeforeIrreflexive(last);
      if Matches(lower, last, segs) && best.Some? && Before(last, best.value) {
        forall q | q in init && Matches(lower, q, segs)
          ensures !Before(q, last)
        {
          BeforeTransitive(best.value, q, last);
        }
      }
    }
  }

  /** Two first matches spell the path the same way: only their parameter names could differ. */
  lemma FirstMatchesAgree(lower: char -> char, routes: seq<Pattern>, segs: seq<string>, p: Pattern, q: Pattern)
    requires ConflictFree(lower, routes)
    requires IsFirst(lower, routes, segs, p) && IsFirst(lower, routes, segs, q)
    ensures Spell(p, segs) == Spell(q, segs)
  {
    BeforeTotal(p, q);
    forall i | 0 <= i < |p|
      ensures Spell(p, segs)[i] == Spell(q, segs)[i]
    {
      assert Steps(lower, p)[..i + 1] == Steps(lower, q)[..i + 1];
      assert !ConflictAt(lower, p, q, i) by {
        assert !Conflict(lower, p, q);
      }
    }
  }

  /** The answer of the whole fold to one list of segments. */
  function Canonical(lower: char -> char, routes: seq<Pattern>, segs: seq<string>): Option<seq<string>>
  {
    BestRouteLength(lower, routes, segs);
    match BestRoute(lower, routes, segs)
    case None => None
    case Some(p) => Some(Spell(p, segs))
  }

  lemma BestRouteLength(lower: char -> char, routes: seq<Pattern>, segs: seq<string>)
    ensures BestRoute(lower, routes, segs).Some? ==> |BestRoute(lower, routes, segs).value| == |segs|
  {
    BestRouteIsFirst(lower, routes, segs);
  }

  /** Registration order plays no part: any other listing of the same patterns answers alike. */
  lemma OrderOfRegistrationIrrelevant(lower: char -> char, routes: seq<Pattern>, other: seq<Pattern>, segs: seq<string>)
    requires ConflictFree(lower, routes)
    requires forall p :: p in routes <==> p in other
    ensures ConflictFree(lower, other)
    ensures Canonical(lower, routes, segs) == Canonical(lower, other, segs)
  {
    BestRouteIsFirst(lower, routes, segs);
    BestRouteIsFirst(lower, other, segs);
    var a, b := BestRoute(lower, routes, segs), BestRoute(lower, other, segs);
    if a.Some? {
      assert IsFirst(lower, routes, segs, b.value);
      FirstMatchesAgree(lower, routes, segs, a.value, b.value);
    }
  }

  /** The fold over a list of routes, stated without a trie. */
  function FoldPath(lower: char -> char, routes: seq<Pattern>, path: string): string
  {
    if path == "" || path == "/" then path
    else
      match Canonical(lower, routes, Pieces(path))
      case None => path
      case Some(segs) => "/" + Join(segs, '/')
  }
}
