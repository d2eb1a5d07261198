/**
 Deciding which film a file is (internal/metadata/match.go): exact comparison of
 normalised titles, three tiers by year, and a refusal whenever a tier is ambiguous.
 */
module Matcher {
  import opened Text
  import opened TitleNormaliser
  import opened Lists

  datatype Query = Query(title: string, year: int)

  datatype Candidate = Candidate(ids: map<string, string>, title: string, year: int, altTitles: seq<string>)

  datatype Confidence = Exact | YearNear | TitleOnly

  datatype DeclineKind = NoCandidates | NoTitleMatch | Ambiguous | YearMismatch | UnusableTitle

  /** The verdict; the operator-facing reason text is not part of it. */
  datatype Decision =
    | Matched(candidate: Candidate, confidence: Confidence, viaAlternative: bool)
    | Declined(kind: DeclineKind)

  predicate ByPrimary(al: Alphabet, c: Candidate, want: string)
  {
    NormalTitle(al, c.title) == want
  }

  predicate ByAlternative(al: Alphabet, c: Candidate, want: string)
  {
    exists i :: 0 <= i < |c.altTitles| && NormalTitle(al, c.altTitles[i]) == want
  }

  predicate Titled(al: Alphabet, c: Candidate, want: string)
  {
    ByPrimary(al, c, want) || ByAlternative(al, c, want)
  }

  /** Reachable only through an alternative title. */
  predicate Via(al: Alphabet, c: Candidate, want: string)
  {
    !ByPrimary(al, c, want) && ByAlternative(al, c, want)
  }

  /** The tier one candidate qualifies for, judged on its own. */
  function Tier(al: Alphabet, q: Query, want: string, c: Candidate): Option<Confidence>
  {
    if !Titled(al, c, want) then None
    else if q.year == 0 then Some(TitleOnly)
    else if c.year == q.year then Some(Exact)
    else if c.year - q.year == 1 || c.year - q.year == -1 then Some(YearNear)
    else None
  }

  function AtTier(al: Alphabet, q: Query, want: string, t: Confidence): Candidate -> bool
  {
    c => Tier(al, q, want, c) == Some(t)
  }

  function HasTitle(al: Alphabet, want: string): Candidate -> bool
  {
    c => Titled(al, c, want)
  }

  /** The candidates at one tier, in listing order. */
  function InTier(al: Alphabet, q: Query, want: string, t: Confidence, cs: seq<Candidate>): seq<Candidate>
  {
    Filter(AtTier(al, q, want, t), cs)
  }

  predicate AnyTitled(al: Alphabet, want: string, cs: seq<Candidate>)
  {
    exists i :: 0 <= i < |cs| && Titled(al, cs[i], want)
  }

  /** Tiers from strongest to weakest; the first one with a survivor decides, and only a single survivor is accepted. */
  function Decide(al: Alphabet, q: Query, cs: seq<Candidate>): Decision
  {
    var want := NormalTitle(al, q.title);
    if cs == [] then Declined(NoCandidates)
    else if want == "" then Declined(UnusableTitle)
    else if !AnyTitled(al, want, cs) then Declined(NoTitleMatch)
    else
      var exact, near := InTier(al, q, want, Exact, cs), InTier(al, q, want, YearNear, cs);
      var only := InTier(al, q, want, TitleOnly, cs);
      if exact != [] then Sole(al, want, Exact, exact)
      else if near != [] then Sole(al, want, YearNear, near)
      else if only != [] then Sole(al, want, TitleOnly, only)
      else Declined(YearMismatch)
  }

  function Sole(al: Alphabet, want: string, t: Confidence, survivors: seq<Candidate>): Decision
    requires survivors != []
  {
    if |survivors| == 1 then Matched(survivors[0], t, Via(al, survivors[0], want)) else Declined(Ambiguous)
  }

  // ---- the matcher as it runs ----

  method MatchesAnAlternative(al: Alphabet, c: Candidate, want: string) returns (found: bool)
    requires Sensible(al)
    ensures found <==> ByAlternative(al, c, want)
  {
    for i := 0 to |c.altTitles|
      invariant forall k :: 0 <= k < i ==> NormalTitle(al, c.altTitles[k]) != want
    {
      var alt := NormaliseTitle(al, c.altTitles[i]);
      if alt == want {
        return true;
      }
    }
    return false;
  }

  /** The candidates carrying the title, and whether any needed an alternative one. */
  method CollectTitled(al: Alphabet, want: string, cs: seq<Candidate>) returns (titled: seq<Candidate>, viaAlt: bool)
    requires Sensible(al)
    ensures titled == Filter(HasTitle(al, want), cs)
    ensures viaAlt <==> exists c :: c in titled && Via(al, c, want)
  {
    hide NormalTitle, ByAlternative, Filter;
    titled, viaAlt := [], false;
    FilterNone(HasTitle(al, want), []);
    for i := 0 to |cs|
      invariant titled == Filter(HasTitle(al, want), cs[..i])
      invariant viaAlt <==> exists c :: c in titled && Via(al, c, want)
    {
      FilterNext(HasTitle(al, want), cs, i);
      var c := cs[i];
      var primary := NormaliseTitle(al, c.title);
      if primary == want {
        titled := titled + [c];
      } else {
        var alternative := MatchesAnAlternative(al, c, want);
        if alternative {
          titled, viaAlt := titled + [c], true;
          assert c in titled && Via(al, c, want);
        }
      }
    }
    assert cs[..|cs|] == cs;
  }

  /** The titled candidates, by how far their year is from the query's. */
  method SplitByYear(al: Alphabet, q: Query, want: string, titled: seq<Candidate>)
    returns (exact: seq<Candidate>, near: seq<Candidate>)
    requires q.year != 0 && forall c :: c in titled ==> Titled(al, c, want)
    ensures exact == InTier(al, q, want, Exact, titled) && near == InTier(al, q, want, YearNear, titled)
    ensures InTier(al, q, want, TitleOnly, titled) == []
  {
    hide Titled, Filter;
    exact, near := [], [];
    FilterNone(AtTier(al, q, want, Exact), []);
    FilterNone(AtTier(al, q, want, YearNear), []);
    for i := 0 to |titled|
      invariant exact == InTier(al, q, want, Exact, titled[..i])
      invariant near == InTier(al, q, want, YearNear, titled[..i])
    {
      FilterNext(AtTier(al, q, want, Exact), titled, i);
      FilterNext(AtTier(al, q, want, YearNear), titled, i);
      assert titled[i] in titled;
      var diff := titled[i].year - q.year;
      if diff == 0 {
        exact := exact + [titled[i]];
      } else if diff == 1 || diff == -1 {
        near := near + [titled[i]];
      }
    }
    assert titled[..|titled|] == titled;
    FilterNone(AtTier(al, q, want, TitleOnly), titled);
  }

  lemma TitledFacts(al: Alphabet, q: Query, want: string, cs: seq<Candidate>)
    ensures var titled := Filter(HasTitle(al, want), cs);
      && (titled != [] <==> AnyTitled(al, want, cs))
      && (forall c :: c in titled ==> Titled(al, c, want))
      && (forall t :: InTier(al, q, want, t, titled) == InTier(al, q, want, t, cs))
  {
    hide Titled, Filter;
    var has := HasTitle(al, want);
    var titled := Filter(has, cs);
    FilterMembers(has, cs);
    if titled != [] {
      assert titled[0] in cs && has(titled[0]);
    }
    if AnyTitled(al, want, cs) {
      var i :| 0 <= i < |cs| && Titled(al, cs[i], want);
      assert cs[i] in titled;
    }
    forall t
      ensures InTier(al, q, want, t, titled) == InTier(al, q, want, t, cs)
    {
      FilterTwice(AtTier(al, q, want, t), has, cs);
    }
  }

  /** Without a year every titled candidate is at the one tier there is. */
  lemma NoYearTier(al: Alphabet, q: Query, want: string, titled: seq<Candidate>)
    requires q.year == 0 && forall c :: c in titled ==> Titled(al, c, want)
    ensures InTier(al, q, want, Exact, titled) == InTier(al, q, want, YearNear, titled) == [] &&
      InTier(al, q, want, TitleOnly, titled) == titled
  {
    hide Titled, Filter;
    FilterNone(AtTier(al, q, want, Exact), titled);
    FilterNone(AtTier(al, q, want, YearNear), titled);
    FilterAll(AtTier(al, q, want, TitleOnly), titled);
  }

  method Match(al: Alphabet, q: Query, cs: seq<Candidate>) returns (d: Decision)
    requires Sensible(al)
    ensures d == Decide(al, q, cs)
  {
    hide NormalTitle, Titled, Via, InTier, AnyTitled;
    if cs == [] {
      return Declined(NoCandidates);
    }
    var want := NormaliseTitle(al, q.title);
    if want == "" {
      return Declined(UnusableTitle);
    }
    var titled, viaAlt := CollectTitled(al, want, cs);
    TitledFacts(al, q, want, cs);
    if titled == [] {
      return Declined(NoTitleMatch);
    }
    if q.year == 0 {
      NoYearTier(al, q, want, titled);
      if |titled| > 1 {
        return Declined(Ambiguous);
      }
      return Matched(titled[0], TitleOnly, viaAlt);
    }
    var exact, near := SplitByYear(al, q, want, titled);
    if |exact| == 1 {
      return Matched(exact[0], Exact, Via(al, exact[0], want));
    }
    if |exact| > 1 {
      return Declined(Ambiguous);
    }
    if |near| == 1 {
      return Matched(near[0], YearNear, Via(al, near[0], want));
    }
    if |near| > 1 {
      return Declined(Ambiguous);
    }
    return Declined(YearMismatch);
  }

  // ---- what the matcher promises ----

  /** How many candidates, counted by position, stand at a tier. */
  function Survivors(al: Alphabet, q: Query, t: Confidence, cs: seq<Candidate>): nat
  {
    |InTier(al, q, NormalTitle(al, q.title), t, cs)|
  }

  function Rank(t: Confidence): nat
  {
    match t
    case Exact => 0
    case YearNear => 1
    case TitleOnly => 2
  }

  ghost predicate StrongerTiersEmpty(al: Alphabet, q: Query, t: Confidence, cs: seq<Candidate>)
  {
    forall u :: Rank(u) < Rank(t) ==> Survivors(al, q, u, cs) == 0
  }

  lemma NoTitleNoSurvivor(al: Alphabet, q: Query, want: string, t: Confidence, cs: seq<Candidate>)
    requires !AnyTitled(al, want, cs)
    ensures InTier(al, q, want, t, cs) == []
  {
    hide Titled;
    FilterNone(AtTier(al, q, want, t), cs);
  }

  /** A tier with survivors below empty stronger tiers is the one that decides. */
  lemma BestTierDecides(al: Alphabet, q: Query, cs: seq<Candidate>, t: Confidence)
    requires NormalTitle(al, q.title) != "" && Survivors(al, q, t, cs) > 0 && StrongerTiersEmpty(al, q, t, cs)
    ensures Decide(al, q, cs) == Sole(al, NormalTitle(al, q.title), t, InTier(al, q, NormalTitle(al, q.title), t, cs))
  {
    hide NormalTitle, AtTier, Filter, AnyTitled, Sole;
    var want := NormalTitle(al, q.title);
    if !AnyTitled(al, want, cs) {
      NoTitleNoSurvivor(al, q, want, t, cs);
    }
    FilterNone(AtTier(al, q, want, t), []);
    assert Rank(Exact) < Rank(t) ==> Survivors(al, q, Exact, cs) == 0;
    assert Rank(YearNear) < Rank(t) ==> Survivors(al, q, YearNear, cs) == 0;
  }

  /** Accepted exactly when the best non-empty tier has one survivor, which is the film chosen. */
  lemma AcceptsSoleBest(al: Alphabet, q: Query, cs: seq<Candidate>, t: Confidence, c: Candidate)
    ensures Decide(al, q, cs) == Matched(c, t, Via(al, c, NormalTitle(al, q.title))) <==>
            NormalTitle(al, q.title) != "" && StrongerTiersEmpty(al, q, t, cs)
            && InTier(al, q, NormalTitle(al, q.title), t, cs) == [c]
    ensures forall via :: Decide(al, q, cs) == Matched(c, t, via) ==> via == Via(al, c, NormalTitle(al, q.title))
  {
    hide NormalTitle, Via, AtTier, Filter, AnyTitled;
    var want := NormalTitle(al, q.title);
    if InTier(al, q, want, t, cs) == [c] && want != "" && StrongerTiersEmpty(al, q, t, cs) {
      BestTierDecides(al, q, cs, t);
    }
  }

  /** An ambiguous tier ends the decision: a weaker tier is never consulted. */
  lemma AmbiguousNeverFallsThrough(al: Alphabet, q: Query, cs: seq<Candidate>, t: Confidence)
    requires NormalTitle(al, q.title) != "" && Survivors(al, q, t, cs) > 1 && StrongerTiersEmpty(al, q, t, cs)
    ensures Decide(al, q, cs) == Declined(Ambiguous)
  {
    BestTierDecides(al, q, cs, t);
  }

  lemma AnyTitledPermuted(al: Alphabet, want: string, cs: seq<Candidate>, other: seq<Candidate>)
    requires multiset(cs) == multiset(other) && AnyTitled(al, want, cs)
    ensures AnyTitled(al, want, other)
  {
    hide Titled;
    var i :| 0 <= i < |cs| && Titled(al, cs[i], want);
    assert cs[i] in multiset(other);
    var j :| 0 <= j < |other| && other[j] == cs[i];
  }

  /** The provider's ranking never decides: any permutation of its results gives the same verdict. */
  lemma ProviderOrderNeverDecides(al: Alphabet, q: Query, cs: seq<Candidate>, other: seq<Candidate>)
    requires multiset(cs) == multiset(other)
    ensures Decide(al, q, cs) == Decide(al, q, other)
  {
    hide NormalTitle, Via, AtTier, Filter;
    var want := NormalTitle(al, q.title);
    assert |multiset(cs)| == |cs| && |multiset(other)| == |other|;
    if AnyTitled(al, want, cs) {
      AnyTitledPermuted(al, want, cs, other);
    } else if AnyTitled(al, want, other) {
      AnyTitledPermuted(al, want, other, cs);
    }
    FilterPermuted(AtTier(al, q, want, Exact), cs, other);
    FilterPermuted(AtTier(al, q, want, YearNear), cs, other);
    FilterPermuted(AtTier(al, q, want, TitleOnly), cs, other);
  }

  // ---- the verdict in titles and years ----

  /** The primary title, or some alternative one, is the title asked for once both are normalised. */
  ghost predicate Named(al: Alphabet, c: Candidate, title: string)
  {
    || NormalTitle(al, c.title) == NormalTitle(al, title)
    || exists a :: a in c.altTitles && NormalTitle(al, a) == NormalTitle(al, title)
  }

  /** Named, and with a year asked for at this distance from it. */
  ghost predicate NamedAt(al: Alphabet, q: Query, cs: seq<Candidate>, k: nat, distance: nat)
  {
    && k < |cs| && Named(al, cs[k], q.title)
    && (cs[k].year == q.year + distance || cs[k].year == q.year - distance)
  }

  ghost predicate NamedIn(al: Alphabet, q: Query, cs: seq<Candidate>, k: nat)
  {
    k < |cs| && Named(al, cs[k], q.title)
  }

  /** What one candidate's title was found by. */
  ghost predicate ByOther(al: Alphabet, c: Candidate, title: string)
  {
    NormalTitle(al, c.title) != NormalTitle(al, title)
  }

  /** One candidate alone is accepted, several are refused. */
  ghost predicate Settles(d: Decision, al: Alphabet, q: Query, cs: seq<Candidate>, t: Confidence, stands: nat -> bool)
    requires forall k: nat :: stands(k) ==> k < |cs|
  {
    && (forall k: nat :: stands(k) && (forall j: nat :: stands(j) ==> j == k) ==>
          d == Matched(cs[k], t, ByOther(al, cs[k], q.title)))
    && (forall j: nat, k: nat :: stands(j) && stands(k) && j != k ==> d == Declined(Ambiguous))
  }

  lemma TitledExactly(al: Alphabet, c: Candidate, title: string)
    ensures Titled(al, c, NormalTitle(al, title)) <==> Named(al, c, title)
    ensures Named(al, c, title) ==> (Via(al, c, NormalTitle(al, title)) <==> ByOther(al, c, title))
  {
    hide NormalTitle;
  }

  lemma TierExactly(al: Alphabet, q: Query, cs: seq<Candidate>, k: nat)
    requires k < |cs|
    ensures var tier := Tier(al, q, NormalTitle(al, q.title), cs[k]);
      && (tier == Some(Exact) <==> q.year != 0 && NamedAt(al, q, cs, k, 0))
      && (tier == Some(YearNear) <==> q.year != 0 && NamedAt(al, q, cs, k, 1))
      && (tier == Some(TitleOnly) <==> q.year == 0 && NamedIn(al, q, cs, k))
  {
    hide NormalTitle, Titled, Named;
    TitledExactly(al, cs[k], q.title);
  }

  /** A tier with these standing at it, none at a stronger one. */
  lemma TierSettles(al: Alphabet, q: Query, cs: seq<Candidate>, t: Confidence, stands: nat -> bool)
    requires NormalTitle(al, q.title) != "" && StrongerTiersEmpty(al, q, t, cs)
    requires forall k: nat :: stands(k) <==> k < |cs| && Tier(al, q, NormalTitle(al, q.title), cs[k]) == Some(t)
    ensures Settles(Decide(al, q, cs), al, q, cs, t, stands)
  {
    hide NormalTitle, Tier, Decide, Filter, ByOther, Via;
    var want := NormalTitle(al, q.title);
    var p := AtTier(al, q, want, t);
    forall k: nat | stands(k) && forall j: nat :: stands(j) ==> j == k
      ensures Decide(al, q, cs) == Matched(cs[k], t, ByOther(al, cs[k], q.title))
    {
      FilterOne(p, cs, k);
      AcceptsSoleBest(al, q, cs, t, cs[k]);
      StandsVia(al, q, cs[k], t);
    }
    forall j: nat, k: nat | stands(j) && stands(k) && j != k
      ensures Decide(al, q, cs) == Declined(Ambiguous)
    {
      FilterTwo(p, cs, if j < k then j else k, if j < k then k else j);
      AmbiguousNeverFallsThrough(al, q, cs, t);
    }
  }

  lemma StandsVia(al: Alphabet, q: Query, c: Candidate, t: Confidence)
    requires Tier(al, q, NormalTitle(al, q.title), c) == Some(t)
    ensures Via(al, c, NormalTitle(al, q.title)) <==> ByOther(al, c, q.title)
  {
    hide NormalTitle, Titled, Via, ByOther;
    TitledExactly(al, c, q.title);
  }

  lemma NobodyAt(al: Alphabet, q: Query, cs: seq<Candidate>, t: Confidence)
    requires forall k :: 0 <= k < |cs| ==> Tier(al, q, NormalTitle(al, q.title), cs[k]) != Some(t)
    ensures Survivors(al, q, t, cs) == 0
  {
    hide NormalTitle, Tier, Filter;
    FilterNone(AtTier(al, q, NormalTitle(al, q.title), t), cs);
  }

  /**
   The verdict over any listing, in titles and years. With a year, the candidates named so at that very year
   decide if there are any, then those a year off; without one, all that are named so: one alone is accepted,
   several are refused. Otherwise the refusal says which there were none of.
   */
  lemma DecideMeasured(al: Alphabet, q: Query, cs: seq<Candidate>)
    ensures var d := Decide(al, q, cs);
      if cs == [] then d == Declined(NoCandidates)
      else if NormalTitle(al, q.title) == "" then d == Declined(UnusableTitle)
      else if forall k: nat :: !NamedIn(al, q, cs, k) then d == Declined(NoTitleMatch)
      else if q.year == 0 then Settles(d, al, q, cs, TitleOnly, (k: nat) => NamedIn(al, q, cs, k))
      else if exists k: nat :: NamedAt(al, q, cs, k, 0) then
        Settles(d, al, q, cs, Exact, (k: nat) => NamedAt(al, q, cs, k, 0))
      else if exists k: nat :: NamedAt(al, q, cs, k, 1) then
        Settles(d, al, q, cs, YearNear, (k: nat) => NamedAt(al, q, cs, k, 1))
      else d == Declined(YearMismatch)
  {
    hide NormalTitle, Tier, Settles, Filter, NamedAt, NamedIn, Titled, Decide;
    forall k: nat | k < |cs|
      ensures var tier := Tier(al, q, NormalTitle(al, q.title), cs[k]);
        && (tier == Some(Exact) <==> q.year != 0 && NamedAt(al, q, cs, k, 0))
        && (tier == Some(YearNear) <==> q.year != 0 && NamedAt(al, q, cs, k, 1))
        && (tier == Some(TitleOnly) <==> q.year == 0 && NamedIn(al, q, cs, k))
    {
      TierExactly(al, q, cs, k);
    }
    NamedBounds(al, q, cs);
    if cs == [] || NormalTitle(al, q.title) == "" || forall k: nat :: !NamedIn(al, q, cs, k) {
      RefusedEarly(al, q, cs);
    } else if q.year == 0 {
      NobodyAt(al, q, cs, Exact);
      NobodyAt(al, q, cs, YearNear);
      TierSettles(al, q, cs, TitleOnly, (k: nat) => NamedIn(al, q, cs, k));
    } else if exists k: nat :: NamedAt(al, q, cs, k, 0) {
      TierSettles(al, q, cs, Exact, (k: nat) => NamedAt(al, q, cs, k, 0));
    } else if exists k: nat :: NamedAt(al, q, cs, k, 1) {
      NobodyAt(al, q, cs, Exact);
      TierSettles(al, q, cs, YearNear, (k: nat) => NamedAt(al, q, cs, k, 1));
    } else {
      NobodyAt(al, q, cs, Exact);
      NobodyAt(al, q, cs, YearNear);
      NobodyAt(al, q, cs, TitleOnly);
      NobodyStands(al, q, cs);
    }
  }

  lemma NamedBounds(al: Alphabet, q: Query, cs: seq<Candidate>)
    ensures forall k: nat :: NamedIn(al, q, cs, k) ==> k < |cs|
    ensures forall k: nat, distance: nat :: NamedAt(al, q, cs, k, distance) ==> k < |cs|
  {
    hide Named;
  }

  lemma RefusedEarly(al: Alphabet, q: Query, cs: seq<Candidate>)
    requires cs == [] || NormalTitle(al, q.title) == "" || forall k: nat :: !NamedIn(al, q, cs, k)
    ensures Decide(al, q, cs) == Declined(
      if cs == [] then NoCandidates
      else if NormalTitle(al, q.title) == "" then UnusableTitle
      else NoTitleMatch)
  {
    hide NormalTitle, Titled, Named, InTier;
    forall k | 0 <= k < |cs|
      ensures Titled(al, cs[k], NormalTitle(al, q.title)) <==> NamedIn(al, q, cs, k)
    {
      TitledExactly(al, cs[k], q.title);
    }
  }

  lemma NobodyStands(al: Alphabet, q: Query, cs: seq<Candidate>)
    requires cs != [] && NormalTitle(al, q.title) != "" && exists k: nat :: NamedIn(al, q, cs, k)
    requires Survivors(al, q, Exact, cs) == Survivors(al, q, YearNear, cs) == Survivors(al, q, TitleOnly, cs) == 0
    ensures Decide(al, q, cs) == Declined(YearMismatch)
  {
    hide NormalTitle, Titled, Named, Filter;
    var k: nat :| NamedIn(al, q, cs, k);
    TitledExactly(al, cs[k], q.title);
  }
}
