/**
 The trie behind case-insensitive routing (internal/compat/jellyfin/routefold.go):
 built in place from the registered patterns and walked with backtracking, and
 shown to be a fast form of `RouteSpec.Canonical`.
 */
module RouteFold {
  import opened Text
  import opened RouteSpec

  class FoldNode {
    var literals: map<string, FoldNode>
    var canonical: string
    var wildcard: FoldNode?
    var terminal: bool

    constructor ()
      ensures Value() == Fields(map[], "", null, false)
    {
      literals, canonical, wildcard, terminal := map[], "", null, false;
    }

    ghost function Value(): Fields
      reads this
    {
      Fields(literals, canonical, wildcard, terminal)
    }
  }

  datatype Fields = Fields(literals: map<string, FoldNode>, canonical: string, wildcard: FoldNode?, terminal: bool)

  /** Every node of a trie, by the steps that lead to it from the root. */
  type Layout = map<seq<Step>, FoldNode>

  /** What a trie records: a spelling for each node, and the nodes that complete a route. */
  datatype Tree = Tree(spelling: map<seq<Step>, string>, ends: set<seq<Step>>)

  /** The nodes on the heap are laid out as the tree says, with no sharing. */
  ghost predicate Shaped(at: Layout, tree: Tree)
    reads at.Values
  {
    Closed(at, tree) && forall p :: p in at ==> Linked(at, tree, p, at[p].Value())
  }

  ghost predicate Closed(at: Layout, tree: Tree)
  {
    && [] in at
    && at.Keys == tree.spelling.Keys
    && tree.ends <= at.Keys
    && (forall p, s :: p + [s] in at ==> p in at)
    && (forall p, q :: p in at && q in at && p != q ==> at[p] != at[q])
  }

  ghost predicate Linked(at: Layout, tree: Tree, p: seq<Step>, f: Fields)
    requires p in tree.spelling
  {
    && (forall k :: k in f.literals <==> p + [Lit(k)] in at)
    && (forall k :: k in f.literals ==> f.literals[k] == at[p + [Lit(k)]])
    && (f.wildcard != null <==> p + [Wild] in at)
    && (f.wildcard != null ==> f.wildcard == at[p + [Wild]])
    && f.canonical == tree.spelling[p]
    && (f.terminal <==> p in tree.ends)
  }

  /** The tree holds exactly the routes, plus the nodes a partly added pattern leads through. */
  ghost predicate Holds(lower: char -> char, tree: Tree, routes: seq<Pattern>, partial: Pattern)
  {
    && (forall p :: p in tree.spelling <==> p == [] || Through(lower, routes + [partial], p))
    && (forall r: Pattern, i :: r in routes + [partial] && 0 <= i < |r| ==> Spelled(lower, tree, r, i))
    && (forall p :: p in tree.ends <==> exists r :: r in routes && Steps(lower, r) == p)
  }

  ghost predicate Through(lower: char -> char, routes: seq<Pattern>, p: seq<Step>)
  {
    exists r :: r in routes && LeadsThrough(lower, r, p)
  }

  ghost predicate LeadsThrough(lower: char -> char, r: Pattern, p: seq<Step>)
  {
    |p| <= |r| && Steps(lower, r)[..|p|] == p
  }

  ghost predicate Spelled(lower: char -> char, tree: Tree, r: Pattern, i: nat)
    requires i < |r|
  {
    var p := Steps(lower, r)[..i + 1];
    p in tree.spelling && (r[i].Literal? ==> tree.spelling[p] == r[i].text)
  }

  function TextOf(s: Segment): string
  {
    if s.Literal? then s.text else ""
  }

  function Grown(tree: Tree, p: seq<Step>, text: string): Tree
  {
    if p in tree.spelling then tree else tree.(spelling := tree.spelling[p := text])
  }

  /** The fields of a node once `child` hangs under it. */
  ghost function Hung(f: Fields, step: Step, child: FoldNode): Fields
  {
    match step
    case Lit(k) => f.(literals := f.literals[k := child])
    case Wild => f.(wildcard := child)
  }

  lemma StepInjective(p: seq<Step>, s: Step, q: seq<Step>, t: Step)
    requires p + [s] == q + [t]
    ensures p == q && s == t
  {
    assert |p| == |q|;
    assert (p + [s])[..|p|] == p && (q + [t])[..|q|] == q;
    assert (p + [s])[|p|] == s && (q + [t])[|q|] == t;
  }

  /** Hanging a fresh, empty node under `here` keeps every node linked. */
  lemma LinkAfter(at: Layout, tree: Tree, here: seq<Step>, step: Step, child: FoldNode, p: seq<Step>, f: Fields,
                  text: string)
    requires Closed(at, tree) && here in at && here + [step] !in at
    requires if p == here + [step] then f == Fields(map[], text, null, false) else p in at && Linked(at, tree, p, f)
    ensures var next := here + [step];
      Linked(at[next := child], Grown(tree, next, text), p, if p == here then Hung(f, step, child) else f)
  {
    var next := here + [step];
    if p == next {
      assert forall s: Step :: |next + [s]| != |next|;
    } else {
      forall s: Step | p + [s] == next
        ensures p == here && s == step
      {
        StepInjective(p, s, here, step);
      }
    }
  }

  lemma ClosedAfter(at: Layout, tree: Tree, here: seq<Step>, step: Step, child: FoldNode, text: string)
    requires Closed(at, tree) && here in at && here + [step] !in at && child !in at.Values
    ensures Closed(at[here + [step] := child], Grown(tree, here + [step], text))
  {
    forall p, s | p + [s] == here + [step]
      ensures p == here
    {
      StepInjective(p, s, here, step);
    }
  }

  /** A new node under `here`, by a literal key or as the wildcard child. */
  method Attach(node: FoldNode, step: Step, text: string, ghost at: Layout, ghost tree: Tree, ghost here: seq<Step>)
    returns (child: FoldNode, ghost at': Layout)
    requires Shaped(at, tree) && here in at && at[here] == node && here + [step] !in at
    modifies node
    ensures fresh(child) && at' == at[here + [step] := child]
    ensures fresh(at'.Values - at.Values)
    ensures Shaped(at', Grown(tree, here + [step], text))
  {
    child := new FoldNode();
    child.canonical := text;
    match step {
      case Lit(key) => node.literals := node.literals[key := child];
      case Wild => node.wildcard := child;
    }
    at' := at[here + [step] := child];
    ClosedAfter(at, tree, here, step, child, text);
    forall p | p in at'
      ensures Linked(at', Grown(tree, here + [step], text), p, at'[p].Value())
    {
      LinkAfter(at, tree, here, step, child, p, if p == here + [step] then child.Value() else old(at[p].Value()), text);
    }
  }

  /** One segment of the build loop: reuse the child or add it, unless the spelling conflicts. */
  method Descend(lower: char -> char, node: FoldNode, segment: Segment, ghost at: Layout, ghost tree: Tree,
                 ghost here: seq<Step>)
    returns (child: FoldNode?, ghost at': Layout)
    requires Shaped(at, tree) && here in at && at[here] == node
    modifies node
    ensures var next := here + [StepOf(lower, segment)];
      if child == null then
        segment.Literal? && next in tree.spelling && tree.spelling[next] != segment.text
      else
        && Shaped(at', Grown(tree, next, TextOf(segment)))
        && next in at' && at'[next] == child && at' == at[next := child]
        && (next in tree.spelling && segment.Literal? ==> tree.spelling[next] == segment.text)
        && fresh(at'.Values - at.Values)
  {
    ghost var next := here + [StepOf(lower, segment)];
    assert Linked(at, tree, here, node.Value());
    match segment {
      case Param =>
        if node.wildcard == null {
          child, at' := Attach(node, Wild, "", at, tree, here);
        } else {
          return node.wildcard, at;
        }
      case Literal(text) =>
        var key := Lower(lower, text);
        if key !in node.literals {
          child, at' := Attach(node, Lit(key), text, at, tree, here);
        } else {
          assert Linked(at, tree, next, at[next].Value());
          if node.literals[key].canonical != text {
            return null, at;
          }
          return node.literals[key], at;
        }
    }
  }

  lemma StepsExtend(lower: char -> char, p: Pattern, s: Segment)
    ensures Steps(lower, p + [s]) == Steps(lower, p) + [StepOf(lower, s)]
  {
  }

  lemma HoldsGrow(lower: char -> char, tree: Tree, routes: seq<Pattern>, partial: Pattern, s: Segment)
    requires Holds(lower, tree, routes, partial)
    requires var next := Steps(lower, partial + [s]); next in tree.spelling && s.Literal? ==>
      tree.spelling[next] == s.text
    ensures Holds(lower, Grown(tree, Steps(lower, partial + [s]), TextOf(s)), routes, partial + [s])
  {
    var longer := partial + [s];
    var next := Steps(lower, longer);
    var tree' := Grown(tree, next, TextOf(s));
    StepsExtend(lower, partial, s);
    assert next[..|longer|] == next;
    forall p
      ensures p in tree'.spelling <==> p == [] || Through(lower, routes + [longer], p)
    {
      if LeadsThrough(lower, partial, p) {
        assert LeadsThrough(lower, longer, p);
      }
      if LeadsThrough(lower, longer, p) && p != next {
        assert LeadsThrough(lower, partial, p);
        assert partial in routes + [partial];
      }
      if LeadsThrough(lower, longer, p) {
        assert longer in routes + [longer];
      }
    }
    forall r: Pattern, i | r in routes + [longer] && 0 <= i < |r|
      ensures Spelled(lower, tree', r, i)
    {
      if r in routes {
        assert Spelled(lower, tree, r, i);
        if Steps(lower, r)[..i + 1] == next {
          assert StepOf(lower, r[i]) == StepOf(lower, s);
        }
      } else if i < |partial| {
        assert partial in routes + [partial];
        assert Spelled(lower, tree, partial, i);
        assert Steps(lower, longer)[..i + 1] == Steps(lower, partial)[..i + 1];
      }
    }
  }

  lemma HoldsEnd(lower: char -> char, tree: Tree, routes: seq<Pattern>, whole: Pattern)
    requires Holds(lower, tree, routes, whole)
    ensures Holds(lower, tree.(ends := tree.ends + {Steps(lower, whole)}), routes + [whole], [])
  {
    var tree' := tree.(ends := tree.ends + {Steps(lower, whole)});
    assert forall r :: r in routes + [whole] + [[]] <==> r in routes + [whole] || r == [];
    forall p
      ensures p in tree'.spelling <==> p == [] || Through(lower, routes + [whole] + [[]], p)
    {
      if p != [] && Through(lower, routes + [whole] + [[]], p) {
        var r :| r in routes + [whole] + [[]] && LeadsThrough(lower, r, p);
        assert r in routes + [whole];
      }
      if Through(lower, routes + [whole], p) {
        var r :| r in routes + [whole] && LeadsThrough(lower, r, p);
        assert r in routes + [whole] + [[]];
      }
    }
    forall r: Pattern, i | r in routes + [whole] + [[]] && 0 <= i < |r|
      ensures Spelled(lower, tree', r, i)
    {
      assert r in routes + [whole];
      assert Spelled(lower, tree, r, i);
    }
  }

  /** Meeting another spelling at a node means an earlier pattern conflicts with this one. */
  lemma ConflictFound(lower: char -> char, tree: Tree, routes: seq<Pattern>, partial: Pattern, s: Segment,
                      whole: Pattern)
    requires Holds(lower, tree, routes, partial) && partial + [s] <= whole && s.Literal?
    requires var next := Steps(lower, partial + [s]); next in tree.spelling && tree.spelling[next] != s.text
    ensures exists r :: r in routes && Conflict(lower, r, whole)
  {
    var next := Steps(lower, partial + [s]);
    var i := |partial|;
    var r :| r in routes + [partial] && LeadsThrough(lower, r, next);
    assert Spelled(lower, tree, r, i);
    assert Steps(lower, whole)[..i + 1] == next;
    assert Steps(lower, r)[i] == next[i];
    assert ConflictAt(lower, r, whole, i);
  }

  lemma HeldIsConflictFree(lower: char -> char, tree: Tree, routes: seq<Pattern>)
    requires Holds(lower, tree, routes, [])
    ensures ConflictFree(lower, routes)
  {
    forall p, q, i | p in routes && q in routes && 0 <= i < |p| && i < |q|
      ensures !ConflictAt(lower, p, q, i)
    {
      assert p in routes + [[]] && q in routes + [[]];
      assert Spelled(lower, tree, p, i) && Spelled(lower, tree, q, i);
    }
  }

  /** Mark the node where a pattern ends. */
  method Complete(node: FoldNode, ghost at: Layout, ghost tree: Tree, ghost here: seq<Step>)
    requires Shaped(at, tree) && here in at && at[here] == node
    modifies node
    ensures Shaped(at, tree.(ends := tree.ends + {here}))
  {
    node.terminal := true;
    forall p | p in at
      ensures Linked(at, tree.(ends := tree.ends + {here}), p, at[p].Value())
    {
      assert Linked(at, tree, p, old(at[p].Value()));
    }
  }

  lemma SegmentsStep(pieces: seq<string>, j: nat)
    requires j < |pieces|
    ensures pieces[j] == "" ==> Segments(pieces[..j + 1]) == Segments(pieces[..j])
    ensures pieces[j] != "" ==> Segments(pieces[..j + 1]) == Segments(pieces[..j]) + [ParseSegment(pieces[j])]
    ensures Segments(pieces[..j + 1]) <= Segments(pieces)
  {
    assert pieces[..j + 1][..j] == pieces[..j];
    SegmentsPrefix(pieces, j + 1);
  }

  lemma RoutesStep(patterns: seq<string>, n: nat)
    requires n < |patterns|
    ensures Routes(patterns[..n + 1]) == Routes(patterns[..n]) + [ParsePattern(patterns[n])]
    ensures forall r :: r in Routes(patterns[..n]) ==> r in Routes(patterns)
    ensures ParsePattern(patterns[n]) in Routes(patterns)
  {
    hide ParsePattern;
    assert Routes(patterns)[n] == ParsePattern(patterns[n]);
    forall r | r in Routes(patterns[..n])
      ensures r in Routes(patterns)
    {
      var i :| 0 <= i < n && Routes(patterns[..n])[i] == r;
      assert Routes(patterns)[i] == r;
    }
  }

  /** A trie that stands for some routes, with `node` reached by a partly added pattern. */
  ghost predicate Reached(lower: char -> char, root: FoldNode, node: FoldNode, at: Layout, tree: Tree,
                          routes: seq<Pattern>, done: Pattern)
    reads at.Values
  {
    && Shaped(at, tree) && Holds(lower, tree, routes, done)
    && at[[]] == root
    && Steps(lower, done) in at && at[Steps(lower, done)] == node
  }

  method Follow(lower: char -> char, root: FoldNode, node: FoldNode, segment: string,
                ghost at: Layout, ghost tree: Tree, ghost routes: seq<Pattern>, ghost done: Pattern,
                ghost whole: Pattern)
    returns (child: FoldNode?, ghost at': Layout, ghost tree': Tree)
    requires segment != "" && done + [ParseSegment(segment)] <= whole
    requires Reached(lower, root, node, at, tree, routes, done)
    modifies node
    ensures child == null ==> exists r :: r in routes && Conflict(lower, r, whole)
    ensures child != null ==> Reached(lower, root, child, at', tree', routes, done + [ParseSegment(segment)])
    ensures child != null ==> fresh(at'.Values - at.Values)
  {
    var s := ParseSegment(segment);
    StepsExtend(lower, done, s);
    child, at' := Descend(lower, node, s, at, tree, Steps(lower, done));
    if child == null {
      ConflictFound(lower, tree, routes, done, s, whole);
      tree' := tree;
    } else {
      HoldsGrow(lower, tree, routes, done, s);
      tree' := Grown(tree, Steps(lower, done + [s]), TextOf(s));
    }
  }

  /** The inner loop of the build: one pattern's pieces, followed down from the root. */
  method AddPattern(lower: char -> char, root: FoldNode, pattern: string,
                    ghost at: Layout, ghost tree: Tree, ghost routes: seq<Pattern>)
    returns (ok: bool, ghost at': Layout, ghost tree': Tree)
    requires Reached(lower, root, root, at, tree, routes, [])
    modifies at.Values
    ensures !ok ==> exists r :: r in routes && Conflict(lower, r, ParsePattern(pattern))
    ensures ok ==> Reached(lower, root, root, at', tree', routes + [ParsePattern(pattern)], [])
    ensures ok ==> fresh(at'.Values - at.Values)
  {
    hide *;
    var pieces := Pieces(PatternPath(pattern));
    ghost var whole := Segments(pieces);
    SegmentsEnds(pattern, pieces);
    RootReached(lower, root, at, tree, routes);
    var node: FoldNode := root;
    at', tree' := at, tree;
    var j := 0;
    while j < |pieces|
      invariant 0 <= j <= |pieces|
      invariant Reached(lower, root, node, at', tree', routes, Segments(pieces[..j]))
      invariant node in at'.Values && fresh(at'.Values - at.Values)
    {
      SegmentsStep(pieces, j);
      var segment := pieces[j];
      if segment != "" {
        ghost var done := Segments(pieces[..j]);
        var child: FoldNode?;
        child, at', tree' := Follow(lower, root, node, segment, at', tree', routes, done, whole);
        if child == null {
          return false, at', tree';
        }
        node := child;
      }
      j := j + 1;
    }
    at', tree' := Finish(lower, root, node, at', tree', routes, whole);
    ok := true;
  }

  method Finish(lower: char -> char, root: FoldNode, node: FoldNode,
                ghost at: Layout, ghost tree: Tree, ghost routes: seq<Pattern>, ghost whole: Pattern)
    returns (ghost at': Layout, ghost tree': Tree)
    requires Reached(lower, root, node, at, tree, routes, whole)
    modifies node
    ensures Reached(lower, root, root, at', tree', routes + [whole], []) && at' == at
  {
    Complete(node, at, tree, Steps(lower, whole));
    HoldsEnd(lower, tree, routes, whole);
    at', tree' := at, tree.(ends := tree.ends + {Steps(lower, whole)});
  }

  lemma SegmentsEnds(pattern: string, pieces: seq<string>)
    requires pieces == Pieces(PatternPath(pattern))
    ensures ParsePattern(pattern) == Segments(pieces)
    ensures Segments(pieces[..0]) == [] && pieces[..|pieces|] == pieces
  {
  }

  lemma RootReached(lower: char -> char, root: FoldNode, at: Layout, tree: Tree, routes: seq<Pattern>)
    requires Reached(lower, root, root, at, tree, routes, [])
    ensures root in at.Values
  {
    assert at[[]] == root;
  }

  lemma {:induction false} SegmentsPrefix(pieces: seq<string>, j: nat)
    requires j <= |pieces|
    ensures Segments(pieces[..j]) <= Segments(pieces)
    decreases |pieces|
  {
    if j == |pieces| {
      assert pieces[..j] == pieces;
    } else {
      var init := pieces[..|pieces| - 1];
      SegmentsPrefix(init, j);
      assert init[..j] == pieces[..j];
    }
  }

  method NewTrie(lower: char -> char) returns (root: FoldNode, ghost at: Layout, ghost tree: Tree)
    ensures Reached(lower, root, root, at, tree, [], []) && fresh(at.Values)
  {
    root := new FoldNode();
    at, tree := map[[] := root], Tree(map[[] := ""], {});
  }

  /** Building the whole trie: it fails, as the source panics, exactly on a casing conflict. */
  method BuildFoldTrie(lower: char -> char, patterns: seq<string>)
    returns (root: FoldNode?, ghost at: Layout, ghost tree: Tree)
    ensures root != null <==> ConflictFree(lower, Routes(patterns))
    ensures root != null ==> Reached(lower, root, root, at, tree, Routes(patterns), []) && fresh(at.Values)
  {
    hide Reached, Conflict;
    root, at, tree := NewTrie(lower);
    for n := 0 to |patterns|
      invariant root != null && fresh(at.Values)
      invariant Reached(lower, root, root, at, tree, Routes(patterns[..n]), [])
    {
      RoutesStep(patterns, n);
      var ok;
      ok, at, tree := AddPattern(lower, root, patterns[n], at, tree, Routes(patterns[..n]));
      if !ok {
        return null, at, tree;
      }
    }
    assert patterns[..|patterns|] == patterns;
    ReachedIsConflictFree(lower, root, at, tree, Routes(patterns));
  }

  lemma ReachedIsConflictFree(lower: char -> char, root: FoldNode, at: Layout, tree: Tree, routes: seq<Pattern>)
    requires Reached(lower, root, root, at, tree, routes, [])
    ensures ConflictFree(lower, routes)
  {
    HeldIsConflictFree(lower, tree, routes);
  }
}
