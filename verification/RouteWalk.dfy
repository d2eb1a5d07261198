/**
 Walking the trie: literal branch first, backtracking to the parameter branch.
 The walk answers exactly as trying every registered pattern would.
 */
module RouteWalk {
  import opened Text
  import opened RouteSpec
  import opened RouteFold

  function Walk(lower: char -> char, node: FoldNode, segs: seq<string>,
                ghost at: Layout, ghost tree: Tree, ghost here: seq<Step>): Option<seq<string>>
    requires Shaped(at, tree) && here in at && at[here] == node
    reads at.Values
    decreases |segs|
  {
    if segs == [] then
      if node.terminal then Some([]) else None
    else
      assert Linked(at, tree, here, node.Value());
      var head, tail, key := segs[0], segs[1..], Lower(lower, segs[0]);
      var viaLiteral :=
        if key in node.literals then
          var child := node.literals[key];
          var rest := Walk(lower, child, tail, at, tree, here + [Lit(key)]);
          if rest.Some? then Some([child.canonical] + rest.value) else None
        else None;
      if viaLiteral.Some? then viaLiteral
      else if node.wildcard != null then
        var rest := Walk(lower, node.wildcard, tail, at, tree, here + [Wild]);
        if rest.Some? then Some([head] + rest.value) else None
      else None
  }

  /** A pattern that leads through `here` and whose tail matches the remaining segments. */
  ghost predicate Accepts(lower: char -> char, routes: seq<Pattern>, here: seq<Step>, segs: seq<string>, p: Pattern)
  {
    p in routes && |p| == |here| + |segs| && LeadsThrough(lower, p, here) && Matches(lower, p[|here|..], segs)
  }

  ghost predicate AcceptsFirst(lower: char -> char, routes: seq<Pattern>, here: seq<Step>, segs: seq<string>,
                               p: Pattern)
  {
    Accepts(lower, routes, here, segs, p) &&
    forall q: Pattern :: Accepts(lower, routes, here, segs, q) ==> !Before(q[|here|..], p[|here|..])
  }

  /** The patterns accepted here divide by the kind of their next segment. */
  lemma AcceptsDivides(lower: char -> char, routes: seq<Pattern>, here: seq<Step>, segs: seq<string>, p: Pattern)
    requires segs != []
    ensures Accepts(lower, routes, here + [Lit(Lower(lower, segs[0]))], segs[1..], p) <==>
            Accepts(lower, routes, here, segs, p) && p[|here|].Literal?
    ensures Accepts(lower, routes, here + [Wild], segs[1..], p) <==>
            Accepts(lower, routes, here, segs, p) && p[|here|].Param?
  {
    if p in routes && |p| == |here| + |segs| {
      var n := |here|;
      var steps, rest, deeper := Steps(lower, p), p[n..], p[n + 1..];
      assert steps[..n + 1] == steps[..n] + [steps[n]];
      assert forall s: Step :: LeadsThrough(lower, p, here + [s]) <==>
          LeadsThrough(lower, p, here) && steps[n] == s by {
        forall s: Step
          ensures LeadsThrough(lower, p, here + [s]) <==> LeadsThrough(lower, p, here) && steps[n] == s
        {
          if steps[..n + 1] == here + [s] {
            StepInjective(steps[..n], steps[n], here, s);
          }
        }
      }
      assert forall i :: 0 <= i < |deeper| ==> deeper[i] == rest[i + 1];
      assert Matches(lower, rest, segs) <==>
             Matches(lower, deeper, segs[1..]) &&
                 (rest[0].Literal? ==> Lower(lower, rest[0].text) == Lower(lower, segs[0])) by {
        if Matches(lower, deeper, segs[1..]) {
          assert forall i :: 0 < i < |rest| ==> rest[i] == deeper[i - 1] && segs[i] == segs[1..][i - 1];
        }
      }
    }
  }

  lemma BeforeFromTail(p: Pattern, q: Pattern, n: nat)
    requires n < |p| && n < |q|
    ensures Before(p[n..], q[n..]) <==>
            (p[n].Literal? && q[n].Param?) || (p[n].Literal? == q[n].Literal? && Before(p[n + 1..], q[n + 1..]))
  {
    assert p[n..][1..] == p[n + 1..] && q[n..][1..] == q[n + 1..];
  }

  lemma SpellFromTail(p: Pattern, segs: seq<string>, n: nat)
    requires segs != [] && |p| == n + |segs|
    ensures Spell(p[n..], segs) == [if p[n].Literal? then p[n].text else segs[0]] + Spell(p[n + 1..], segs[1..])
  {
  }

  /** What a walk from `here` must answer. */
  ghost predicate Answers(lower: char -> char, routes: seq<Pattern>, here: seq<Step>, segs: seq<string>,
                          r: Option<seq<string>>)
  {
    if r.None? then forall p: Pattern :: !Accepts(lower, routes, here, segs, p)
    else exists p: Pattern :: AcceptsFirst(lower, routes, here, segs, p) && r.value == Spell(p[|here|..], segs)
  }

  /** Lifting the literal branch's answer one level up. */
  lemma LiteralBranch(lower: char -> char, routes: seq<Pattern>, here: seq<Step>, segs: seq<string>,
                      rest: Option<seq<string>>, canonical: string)
    requires segs != [] && Answers(lower, routes, here + [Lit(Lower(lower, segs[0]))], segs[1..], rest)
    requires forall p: Pattern :: p in routes && LeadsThrough(lower, p, here + [Lit(Lower(lower, segs[0]))]) ==>
      p[|here|].Literal? ==> p[|here|].text == canonical
    ensures rest.Some? ==> Answers(lower, routes, here, segs, Some([canonical] + rest.value))
    ensures rest.None? ==> forall p: Pattern :: Accepts(lower, routes, here, segs, p) ==> p[|here|].Param?
  {
    hide LeadsThrough, Matches, Before, Spell, Lower, Steps;
    forall p: Pattern
    {
      AcceptsDivides(lower, routes, here, segs, p);
    }
    if rest.Some? {
      var deeper := here + [Lit(Lower(lower, segs[0]))];
      var p :| AcceptsFirst(lower, routes, deeper, segs[1..], p) && rest.value == Spell(p[|deeper|..], segs[1..]);
      forall q: Pattern | Accepts(lower, routes, here, segs, q)
        ensures !Before(q[|here|..], p[|here|..])
      {
        BeforeFromTail(q, p, |here|);
      }
      SpellFromTail(p, segs, |here|);
    }
  }

  /** The parameter branch answers once the literal branch is known to be empty. */
  lemma WildBranch(lower: char -> char, routes: seq<Pattern>, here: seq<Step>, segs: seq<string>,
                   rest: Option<seq<string>>)
    requires segs != [] && Answers(lower, routes, here + [Wild], segs[1..], rest)
    requires forall p: Pattern :: Accepts(lower, routes, here, segs, p) ==> p[|here|].Param?
    ensures Answers(lower, routes, here, segs, if rest.Some? then Some([segs[0]] + rest.value) else None)
  {
    hide LeadsThrough, Matches, Before, Spell, Lower, Steps;
    forall p: Pattern
    {
      AcceptsDivides(lower, routes, here, segs, p);
    }
    if rest.Some? {
      var deeper := here + [Wild];
      var p :| AcceptsFirst(lower, routes, deeper, segs[1..], p) && rest.value == Spell(p[|deeper|..], segs[1..]);
      forall q: Pattern | Accepts(lower, routes, here, segs, q)
        ensures !Before(q[|here|..], p[|here|..])
      {
        BeforeFromTail(q, p, |here|);
      }
      SpellFromTail(p, segs, |here|);
    }
  }

  lemma LeavesNowhere(lower: char -> char, tree: Tree, routes: seq<Pattern>, here: seq<Step>, segs: seq<string>)
    requires Holds(lower, tree, routes, []) && here !in tree.spelling
    ensures Answers(lower, routes, here, segs, None)
  {
    forall p: Pattern
      ensures !Accepts(lower, routes, here, segs, p)
    {
      assert p in routes ==> p in routes + [[]];
    }
  }

  lemma CanonicalAt(lower: char -> char, tree: Tree, routes: seq<Pattern>, here: seq<Step>, key: string)
    requires Holds(lower, tree, routes, []) && here + [Lit(key)] in tree.spelling
    ensures forall p: Pattern :: p in routes && LeadsThrough(lower, p, here + [Lit(key)]) ==>
              p[|here|].Literal? ==> p[|here|].text == tree.spelling[here + [Lit(key)]]
  {
    forall p: Pattern | p in routes && LeadsThrough(lower, p, here + [Lit(key)])
      ensures p[|here|].Literal? ==> p[|here|].text == tree.spelling[here + [Lit(key)]]
    {
      assert p in routes + [[]];
      assert Spelled(lower, tree, p, |here|);
    }
  }

  lemma EndsHere(lower: char -> char, tree: Tree, routes: seq<Pattern>, here: seq<Step>)
    requires Holds(lower, tree, routes, [])
    ensures Answers(lower, routes, here, [], if here in tree.ends then Some([]) else None)
  {
    if here in tree.ends {
      var p :| p in routes && Steps(lower, p) == here;
      assert p[|here|..] == [];
      assert AcceptsFirst(lower, routes, here, [], p);
    } else {
      forall p: Pattern
        ensures !Accepts(lower, routes, here, [], p)
      {
        assert |p| == |here| ==> Steps(lower, p)[..|p|] == Steps(lower, p);
      }
    }
  }

  lemma {:induction false} WalkAnswers(lower: char -> char, node: FoldNode, segs: seq<string>,
                                       at: Layout, tree: Tree, here: seq<Step>, routes: seq<Pattern>)
    requires Shaped(at, tree) && here in at && at[here] == node && Holds(lower, tree, routes, [])
    ensures Answers(lower, routes, here, segs, Walk(lower, node, segs, at, tree, here))
    decreases |segs|
  {
    assert Linked(at, tree, here, node.Value());
    if segs == [] {
      EndsHere(lower, tree, routes, here);
    } else {
      var key := Lower(lower, segs[0]);
      var literal: Option<seq<string>> := None;
      if key in node.literals {
        var child := node.literals[key];
        WalkAnswers(lower, child, segs[1..], at, tree, here + [Lit(key)], routes);
        literal := Walk(lower, child, segs[1..], at, tree, here + [Lit(key)]);
        assert Linked(at, tree, here + [Lit(key)], child.Value());
        CanonicalAt(lower, tree, routes, here, key);
        LiteralBranch(lower, routes, here, segs, literal, child.canonical);
      } else {
        LeavesNowhere(lower, tree, routes, here + [Lit(key)], segs[1..]);
        LiteralBranch(lower, routes, here, segs, None, "");
      }
      if literal.None? {
        if node.wildcard != null {
          WalkAnswers(lower, node.wildcard, segs[1..], at, tree, here + [Wild], routes);
          WildBranch(lower, routes, here, segs, Walk(lower, node.wildcard, segs[1..], at, tree, here + [Wild]));
        } else {
          LeavesNowhere(lower, tree, routes, here + [Wild], segs[1..]);
          WildBranch(lower, routes, here, segs, None);
        }
      }
    }
  }

  /** The walk from the root refines the list specification. */
  lemma WalkRefinesList(lower: char -> char, root: FoldNode, segs: seq<string>, at: Layout, tree: Tree,
                        routes: seq<Pattern>)
    requires Reached(lower, root, root, at, tree, routes, [])
    ensures Walk(lower, root, segs, at, tree, []) == Canonical(lower, routes, segs)
  {
    WalkAnswers(lower, root, segs, at, tree, [], routes);
    BestRouteIsFirst(lower, routes, segs);
    forall p: Pattern
      ensures Accepts(lower, routes, [], segs, p) <==> p in routes && Matches(lower, p, segs)
    {
      assert p[0..] == p;
    }
    var w := Walk(lower, root, segs, at, tree, []);
    if w.Some? {
      var p :| AcceptsFirst(lower, routes, [], segs, p) && w.value == Spell(p[0..], segs);
      assert p[0..] == p;
      assert IsFirst(lower, routes, segs, p) by {
        forall q: Pattern | q in routes && Matches(lower, q, segs)
          ensures !Before(q, p)
        {
          assert q[0..] == q && Accepts(lower, routes, [], segs, q);
        }
      }
      HeldIsConflictFree(lower, tree, routes);
      FirstMatchesAgree(lower, routes, segs, p, BestRoute(lower, routes, segs).value);
    }
  }

  /** `fold`: rewrite a path's literals, or leave it alone when no route matches. */
  function Fold(lower: char -> char, root: FoldNode, path: string, ghost at: Layout, ghost tree: Tree): string
    requires Shaped(at, tree) && at[[]] == root
    reads at.Values
  {
    if path == "" || path == "/" then path
    else
      var canonical := Walk(lower, root, Pieces(path), at, tree, []);
      if canonical.None? then path
      else
        var folded := "/" + Join(canonical.value, '/');
        if folded == path then path else folded
  }

  lemma FoldRefinesList(lower: char -> char, root: FoldNode, path: string, at: Layout, tree: Tree, routes: seq<Pattern>)
    requires Reached(lower, root, root, at, tree, routes, [])
    ensures Fold(lower, root, path, at, tree) == FoldPath(lower, routes, path)
  {
    WalkRefinesList(lower, root, Pieces(path), at, tree, routes);
  }
}
