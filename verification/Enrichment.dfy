/**
 The second look at a film nothing was called (internal/service/identity.go): which
 candidates are worth asking about, why asking about more changes nothing, and what a cap can change.
 */
module Enrichment {
  import opened Text
  import opened TitleNormaliser
  import opened Lists
  import opened Matcher

  datatype Answer = Titles(titles: seq<string>) | Failed | RateLimited

  /** Candidates whose year could still reach a tier; every candidate when the query has no year. */
  predicate InWindow(q: Query, c: Candidate)
  {
    q.year == 0 || -1 <= c.year - q.year <= 1
  }

  function WindowUpTo(q: Query, cs: seq<Candidate>, n: nat): (r: seq<nat>)
    requires n <= |cs|
    ensures forall k :: 0 <= k < |r| ==> r[k] < n && InWindow(q, cs[r[k]])
    ensures forall i :: 0 <= i < n && InWindow(q, cs[i]) ==> i in r
    ensures forall j, k :: 0 <= j < k < |r| ==> r[j] < r[k]
  {
    if n == 0 then []
    else WindowUpTo(q, cs, n - 1) + (if InWindow(q, cs[n - 1]) then [n - 1] else [])
  }

  function Window(q: Query, cs: seq<Candidate>): seq<nat>
  {
    WindowUpTo(q, cs, |cs|)
  }

  /** The cap bites whenever it is set, with a year as well as without. */
  predicate CapReached(q: Query, cs: seq<Candidate>, limit: int)
  {
    0 < limit < |Window(q, cs)|
  }

  function Chosen(q: Query, cs: seq<Candidate>, limit: int): seq<nat>
  {
    if CapReached(q, cs, limit) then Window(q, cs)[..limit] else Window(q, cs)
  }

  lemma {:induction false} WindowPrefix(q: Query, cs: seq<Candidate>, m: nat, n: nat)
    requires m <= n <= |cs|
    ensures WindowUpTo(q, cs, m) <= WindowUpTo(q, cs, n)
    decreases n
  {
    if m < n {
      WindowPrefix(q, cs, m, n - 1);
    }
  }

  lemma CappedAt(q: Query, cs: seq<Candidate>, n: nat, limit: int)
    requires n <= |cs| && |WindowUpTo(q, cs, n)| == limit > 0
    ensures Chosen(q, cs, limit) == WindowUpTo(q, cs, n)
  {
    hide InWindow;
    WindowPrefix(q, cs, n, |cs|);
  }

  method AlternativeTitleCandidates(q: Query, cs: seq<Candidate>, limit: int) returns (out: seq<nat>)
    ensures out == Chosen(q, cs, limit)
  {
    out := [];
    for i := 0 to |cs|
      invariant out == WindowUpTo(q, cs, i)
      invariant limit > 0 ==> |out| < limit
    {
      if q.year != 0 {
        var diff := cs[i].year - q.year;
        if diff < -1 || diff > 1 {
          continue;
        }
      }
      out := out + [i];
      if limit > 0 && |out| >= limit {
        CappedAt(q, cs, i + 1, limit);
        return;
      }
    }
  }

  // ---- enriching ----

  function IdOf(name: string, c: Candidate): string
  {
    if name in c.ids then c.ids[name] else ""
  }

  /** A candidate after asking about it; a failed lookup leaves it as it was. */
  function LookedUp(name: string, answers: string -> Answer, c: Candidate): Candidate
  {
    var id := IdOf(name, c);
    if id != "" && answers(id).Titles? then c.(altTitles := answers(id).titles) else c
  }

  function Enriched(name: string, answers: string -> Answer, cs: seq<Candidate>, chosen: seq<nat>): (r: seq<Candidate>)
    ensures |r| == |cs|
    ensures forall i :: 0 <= i < |cs| ==> r[i] == if i in chosen then LookedUp(name, answers, cs[i]) else cs[i]
  {
    seq(|cs|, i requires 0 <= i < |cs| => if i in chosen then LookedUp(name, answers, cs[i]) else cs[i])
  }

  predicate RefusedAt(name: string, answers: string -> Answer, c: Candidate)
  {
    IdOf(name, c) != "" && answers(IdOf(name, c)).RateLimited?
  }

  lemma EnrichedStep(name: string, answers: string -> Answer, cs: seq<Candidate>, chosen: seq<nat>, n: nat)
    requires n < |chosen| && chosen[n] < |cs|
    requires forall j, k :: 0 <= j < k < |chosen| ==> chosen[j] < chosen[k]
    ensures Enriched(name, answers, cs, chosen[..n])[chosen[n]] == cs[chosen[n]]
    ensures Enriched(name, answers, cs, chosen[..n + 1]) ==
            Enriched(name, answers, cs, chosen[..n])[chosen[n] := LookedUp(name, answers, cs[chosen[n]])]
    ensures forall k :: k in chosen[..n + 1] <==> k in chosen[..n] || k == chosen[n]
  {
    hide LookedUp;
    assert chosen[..n + 1] == chosen[..n] + [chosen[n]];
    assert forall m :: 0 <= m < n ==> chosen[m] < chosen[n];
  }

  /** The lookups, in order; being rate limited abandons the item. */
  method WithAlternativeTitles(name: string, answers: string -> Answer, q: Query, cs: seq<Candidate>, limit: int)
    returns (r: Option<seq<Candidate>>)
    ensures r.None? <==> exists k :: k in Chosen(q, cs, limit) && k < |cs| && RefusedAt(name, answers, cs[k])
    ensures r.Some? ==> r.value == Enriched(name, answers, cs, Chosen(q, cs, limit))
  {
    hide Enriched, Chosen;
    var enriched := cs;
    var chosen := AlternativeTitleCandidates(q, cs, limit);
    ChosenOrdered(name, answers, q, cs, limit);
    var n := 0;
    while n < |chosen|
      invariant 0 <= n <= |chosen|
      invariant enriched == Enriched(name, answers, cs, chosen[..n])
      invariant forall k :: k in chosen[..n] && k < |cs| ==> !RefusedAt(name, answers, cs[k])
    {
      var i := chosen[n];
      EnrichedStep(name, answers, cs, chosen, n);
      n := n + 1;
      var id := IdOf(name, enriched[i]);
      if id == "" {
        continue;
      }
      match answers(id) {
        case RateLimited =>
          assert i in chosen && RefusedAt(name, answers, cs[i]);
          return None;
        case Failed => continue;
        case Titles(titles) => enriched := enriched[i := enriched[i].(altTitles := titles)];
      }
    }
    assert chosen[..n] == chosen;
    r := Some(enriched);
  }

  lemma ChosenOrdered(name: string, answers: string -> Answer, q: Query, cs: seq<Candidate>, limit: int)
    ensures var chosen := Chosen(q, cs, limit);
      && (forall k :: 0 <= k < |chosen| ==> chosen[k] < |cs|)
      && (forall j, k :: 0 <= j < k < |chosen| ==> chosen[j] < chosen[k])
    ensures Enriched(name, answers, cs, Chosen(q, cs, limit)[..0]) == cs
  {
  }

  /** One item's decision: the primary titles first, and a second look only when nothing carried the title. */
  function Verdict(al: Alphabet, name: string, answers: string -> Answer, q: Query, cs: seq<Candidate>,
                   limit: int): Decision
  {
    var first := Decide(al, q, cs);
    if first != Declined(NoTitleMatch) then first
    else Decide(al, q, Enriched(name, answers, cs, Chosen(q, cs, limit)))
  }

  /** A title and a year, stored or parsed from a file name. */
  datatype Name = Name(title: string, year: Option<int>)

  /** The stored title; only when it is empty, what the file name parses to. */
  function QueryFor(stored: Name, parsed: Name): Query
  {
    var year := if stored.year.Some? then stored.year.value else 0;
    if stored.title == "" && parsed.title != "" then
      Query(parsed.title, if parsed.year.Some? then parsed.year.value else year)
    else Query(stored.title, year)
  }

  datatype Search = Found(candidates: seq<Candidate>) | SearchFailed | SearchLimited

  datatype Ruling = Ruled(decision: Decision) | Unasked | Limited

  /** What the pass makes of one item's search. */
  function RulingOn(al: Alphabet, name: string, found: Search, answers: string -> Answer, q: Query,
                    limit: int): Ruling
  {
    match found
    case SearchFailed => Unasked
    case SearchLimited => Limited
    case Found(cs) =>
      if Decide(al, q, cs) == Declined(NoTitleMatch)
         && exists k :: k in Chosen(q, cs, limit) && k < |cs| && RefusedAt(name, answers, cs[k])
      then Limited
      else Ruled(Verdict(al, name, answers, q, cs, limit))
  }

  function YearOf(n: Name): int
  {
    if n.year.Some? then n.year.value else 0
  }

  /** The one candidate found that carries a title at a year. */
  ghost predicate OnlyAt(al: Alphabet, cs: seq<Candidate>, title: string, year: int, k: nat)
  {
    && k < |cs| && cs[k].year == year && Named(al, cs[k], title)
    && forall j :: 0 <= j < |cs| && j != k && cs[j].year == year ==> !Named(al, cs[j], title)
  }

  /**
   The stored title is asked for, with the stored year; only where there is none is the file name's title
   asked for, with the file name's year where it has one. A film that alone has the stored title and year is
   accepted whatever else is found.
   */
  method DecideItem(al: Alphabet, name: string, search: Query -> Search, answers: string -> Answer,
                    stored: Name, parsed: Name, limit: int)
    returns (r: Ruling)
    requires Sensible(al)
    ensures r == RulingOn(al, name, search(QueryFor(stored, parsed)), answers, QueryFor(stored, parsed), limit)
    ensures stored.title != "" ==>
      var q := Query(stored.title, YearOf(stored)); r == RulingOn(al, name, search(q), answers, q, limit)
    ensures stored.title == "" && parsed.title != "" && parsed.year.Some? ==>
      var q := Query(parsed.title, parsed.year.value); r == RulingOn(al, name, search(q), answers, q, limit)
    ensures stored.title == "" && parsed.title != "" && parsed.year.None? ==>
      var q := Query(parsed.title, YearOf(stored)); r == RulingOn(al, name, search(q), answers, q, limit)
    ensures stored.title == parsed.title == "" ==>
      var q := Query("", YearOf(stored)); r == RulingOn(al, name, search(q), answers, q, limit)
    ensures stored.year.Some? && stored.year.value != 0 && NormalTitle(al, stored.title) != "" ==>
      var found := search(Query(stored.title, stored.year.value));
      found.Found? ==> forall k: nat :: OnlyAt(al, found.candidates, stored.title, stored.year.value, k) ==>
        var c := found.candidates[k]; r == Ruled(Matched(c, Exact, ByOther(al, c, stored.title)))
  {
    hide Chosen, Enriched, RefusedAt, Decide, NormalTitle, OnlyAt, ByOther;
    QueryAsked(stored, parsed);
    EmptyUnusable(al);
    var year := if stored.year.Some? then stored.year.value else 0;
    var query := Query(stored.title, year);
    if parsed.title != "" && query.title == "" {
      query := query.(title := parsed.title);
      if parsed.year.Some? {
        query := query.(year := parsed.year.value);
      }
    }
    match search(query) {
      case SearchFailed => r := Unasked;
      case SearchLimited => r := Limited;
      case Found(cs) =>
        forall k: nat | query.year != 0 && NormalTitle(al, query.title) != ""
                        && OnlyAt(al, cs, query.title, query.year, k)
          ensures k < |cs| && Decide(al, query, cs) == Matched(cs[k], Exact, ByOther(al, cs[k], query.title))
        {
          OnlyOneAtYear(al, query, cs, k);
        }
        var decision := Match(al, query, cs);
        if decision != Declined(NoTitleMatch) {
          return Ruled(decision);
        }
        var enriched := WithAlternativeTitles(name, answers, query, cs, limit);
        if enriched.None? {
          return Limited;
        }
        decision := Match(al, query, enriched.value);
        r := Ruled(decision);
    }
  }

  lemma EmptyUnusable(al: Alphabet)
    ensures NormalTitle(al, "") == ""
  {
  }

  /** What is asked for, case by case. */
  lemma QueryAsked(stored: Name, parsed: Name)
    ensures stored.title != "" ==> QueryFor(stored, parsed) == Query(stored.title, YearOf(stored))
    ensures stored.title == "" && parsed.title != "" && parsed.year.Some? ==>
      QueryFor(stored, parsed) == Query(parsed.title, parsed.year.value)
    ensures stored.title == "" && parsed.title != "" && parsed.year.None? ==>
      QueryFor(stored, parsed) == Query(parsed.title, YearOf(stored))
    ensures stored.title == parsed.title == "" ==> QueryFor(stored, parsed) == Query("", YearOf(stored))
  {
  }

  lemma OnlyOneAtYear(al: Alphabet, q: Query, cs: seq<Candidate>, k: nat)
    requires q.year != 0 && NormalTitle(al, q.title) != "" && OnlyAt(al, cs, q.title, q.year, k)
    ensures k < |cs| && Decide(al, q, cs) == Matched(cs[k], Exact, ByOther(al, cs[k], q.title))
  {
    hide NormalTitle, Named, Decide, ByOther;
    DecideMeasured(al, q, cs);
    assert NamedIn(al, q, cs, k) && NamedAt(al, q, cs, k, 0);
    assert forall j: nat :: NamedAt(al, q, cs, j, 0) ==> j == k;
  }

  // ---- the two looks ----

  /** When the titles found decide anything, nobody is asked for more. */
  lemma FirstLookDecides(al: Alphabet, name: string, answers: string -> Answer, q: Query, cs: seq<Candidate>,
                         limit: int)
    requires cs == [] || NormalTitle(al, q.title) == "" || exists k: nat :: NamedIn(al, q, cs, k)
    ensures RulingOn(al, name, Found(cs), answers, q, limit) == Ruled(Decide(al, q, cs))
  {
    hide NormalTitle, NamedIn, NamedAt, Decide, Chosen, RefusedAt, ByOther;
    DecideMeasured(al, q, cs);
    if cs != [] && NormalTitle(al, q.title) != "" {
      SettlesNamed(al, q, cs);
    }
  }

  lemma SettlesNamed(al: Alphabet, q: Query, cs: seq<Candidate>)
    requires cs != [] && NormalTitle(al, q.title) != "" && exists k: nat :: NamedIn(al, q, cs, k)
    ensures Decide(al, q, cs) != Declined(NoTitleMatch)
  {
    hide NormalTitle, InTier, Titled, Named, Via;
    var k: nat :| NamedIn(al, q, cs, k);
    TitledExactly(al, cs[k], q.title);
  }

  /** Some title of an answer is the one asked for. */
  ghost predicate Says(al: Alphabet, answer: Answer, title: string)
  {
    answer.Titles? && exists t :: t in answer.titles && NormalTitle(al, t) == NormalTitle(al, title)
  }

  /** Those asked about, as long as the cap lets them: of the very year, a year off, or any without a year. */
  lemma ChosenExactly(q: Query, cs: seq<Candidate>, limit: int, k: nat)
    requires k < |cs|
    ensures k in Chosen(q, cs, limit) <==>
      (q.year == 0 || cs[k].year == q.year || cs[k].year == q.year + 1 || cs[k].year == q.year - 1)
      && (limit <= 0 || |WindowUpTo(q, cs, k)| < limit)
  {
    hide InWindow;
    InWindowYears(q, cs[k]);
    WindowPlace(q, cs, k);
    if InWindow(q, cs[k]) && CapReached(q, cs, limit) {
      SortedPlace(Window(q, cs), |WindowUpTo(q, cs, k)|, limit);
    }
  }

  lemma InWindowYears(q: Query, c: Candidate)
    ensures InWindow(q, c) <==> q.year == 0 || c.year == q.year || c.year == q.year + 1 || c.year == q.year - 1
  {
  }

  /** A candidate's place in the window is the number of windowed ones before it. */
  lemma WindowPlace(q: Query, cs: seq<Candidate>, k: nat)
    requires k < |cs|
    ensures k in Window(q, cs) <==> InWindow(q, cs[k])
    ensures InWindow(q, cs[k]) ==>
      |WindowUpTo(q, cs, k)| < |Window(q, cs)| && Window(q, cs)[|WindowUpTo(q, cs, k)|] == k
  {
    hide InWindow;
    WindowPrefix(q, cs, k + 1, |cs|);
    if InWindow(q, cs[k]) {
      assert WindowUpTo(q, cs, k + 1)[|WindowUpTo(q, cs, k)|] == k;
    }
  }

  lemma SortedPlace(r: seq<nat>, n: nat, limit: nat)
    requires n < |r| && limit < |r| && forall j, k :: 0 <= j < k < |r| ==> r[j] < r[k]
    ensures r[n] in r[..limit] <==> n < limit
  {
    if n < limit {
      assert r[..limit][n] == r[n];
    }
  }

  /**
   The second look, once no title found was the one asked for: being rate limited at any candidate asked about
   ends it; otherwise, when one of them alone turns out to carry the title, that is the film, under the
   confidence its year gives.
   */
  lemma SecondLookFinds(al: Alphabet, name: string, answers: string -> Answer, q: Query, cs: seq<Candidate>, limit: int,
                        k: nat)
    requires NormalTitle(al, q.title) != "" && k in Chosen(q, cs, limit) && k < |cs|
    requires forall j: nat :: !NamedIn(al, q, cs, j)
    requires IdOf(name, cs[k]) != "" && Says(al, answers(IdOf(name, cs[k])), q.title)
    requires forall j :: 0 <= j < |cs| && j in Chosen(q, cs, limit) && j != k && IdOf(name, cs[j]) != "" ==>
      !Says(al, answers(IdOf(name, cs[j])), q.title)
    ensures var r := RulingOn(al, name, Found(cs), answers, q, limit);
      if exists j :: 0 <= j < |cs| && j in Chosen(q, cs, limit) && IdOf(name, cs[j]) != ""
                     && answers(IdOf(name, cs[j])).RateLimited?
      then r == Limited
      else
        var t := if q.year == 0 then TitleOnly else if cs[k].year == q.year then Exact else YearNear;
        r == Ruled(Matched(cs[k].(altTitles := answers(IdOf(name, cs[k])).titles), t, true))
  {
    hide NormalTitle, Decide, Chosen, ByOther, Named, Says, IdOf, LookedUp, Enriched, NamedIn, NamedAt;
    NamedBounds(al, q, cs);
    NamedBounds(al, q, Enriched(name, answers, cs, Chosen(q, cs, limit)));
    DecideMeasured(al, q, cs);
    var more := Enriched(name, answers, cs, Chosen(q, cs, limit));
    SecondTitles(al, name, answers, q, cs, limit, k);
    ChosenExactly(q, cs, limit, k);
    DecideMeasured(al, q, more);
    assert NamedIn(al, q, more, k);
    AtItsYear(al, q, more, k);
  }

  lemma AtItsYear(al: Alphabet, q: Query, cs: seq<Candidate>, k: nat)
    requires NamedIn(al, q, cs, k) && forall j: nat :: NamedIn(al, q, cs, j) ==> j == k
    ensures forall j: nat, distance: nat :: NamedAt(al, q, cs, j, distance) ==> j == k
    ensures cs[k].year == q.year <==> NamedAt(al, q, cs, k, 0)
    ensures cs[k].year == q.year + 1 || cs[k].year == q.year - 1 <==> NamedAt(al, q, cs, k, 1)
  {
    hide Named;
    forall j: nat, distance: nat | NamedAt(al, q, cs, j, distance)
      ensures j == k
    {
      assert NamedIn(al, q, cs, j);
    }
  }

  lemma SecondTitles(al: Alphabet, name: string, answers: string -> Answer, q: Query, cs: seq<Candidate>, limit: int,
                     k: nat)
    requires k in Chosen(q, cs, limit) && k < |cs| && forall j: nat :: !NamedIn(al, q, cs, j)
    requires IdOf(name, cs[k]) != "" && Says(al, answers(IdOf(name, cs[k])), q.title)
    requires forall j :: 0 <= j < |cs| && j in Chosen(q, cs, limit) && j != k && IdOf(name, cs[j]) != "" ==>
      !Says(al, answers(IdOf(name, cs[j])), q.title)
    ensures var more := Enriched(name, answers, cs, Chosen(q, cs, limit));
      && |more| == |cs| && more[k] == cs[k].(altTitles := answers(IdOf(name, cs[k])).titles)
      && ByOther(al, more[k], q.title)
      && forall j: nat :: NamedIn(al, q, more, j) <==> j == k
  {
    hide NormalTitle, Chosen, IdOf;
    assert !NamedIn(al, q, cs, k);
    forall j: nat | j < |cs|
      ensures NamedIn(al, q, Enriched(name, answers, cs, Chosen(q, cs, limit)), j) <==> j == k
    {
      assert !NamedIn(al, q, cs, j);
    }
  }

  // ---- why the window is enough ----

  function UpTo(n: nat): (r: seq<nat>)
    ensures forall i :: i in r <==> 0 <= i < n
  {
    if n == 0 then [] else UpTo(n - 1) + [n - 1]
  }

  function Everyone(cs: seq<Candidate>): seq<nat>
  {
    UpTo(|cs|)
  }

  /** A candidate outside the window is at no tier, whatever it is called. */
  lemma OutsideNoTier(al: Alphabet, q: Query, want: string, c: Candidate)
    requires !InWindow(q, c)
    ensures Tier(al, q, want, c) == None
  {
  }

  lemma LookupKeepsYear(name: string, answers: string -> Answer, q: Query, c: Candidate)
    ensures InWindow(q, LookedUp(name, answers, c)) <==> InWindow(q, c)
  {
  }

  lemma SameTierAt(al: Alphabet, name: string, answers: string -> Answer, q: Query, cs: seq<Candidate>, limit: int,
                   want: string, i: nat)
    requires !CapReached(q, cs, limit) && i < |cs|
    ensures var p := Enriched(name, answers, cs, Chosen(q, cs, limit))[i];
      var f := Enriched(name, answers, cs, Everyone(cs))[i];
      p == f || (Tier(al, q, want, p) == None && Tier(al, q, want, f) == None)
  {
    hide Tier, LookedUp;
    LookupKeepsYear(name, answers, q, cs[i]);
    if !InWindow(q, cs[i]) {
      OutsideNoTier(al, q, want, cs[i]);
      OutsideNoTier(al, q, want, LookedUp(name, answers, cs[i]));
    }
  }

  lemma SameTiers(al: Alphabet, name: string, answers: string -> Answer, q: Query, cs: seq<Candidate>, limit: int,
                  want: string, t: Confidence)
    requires !CapReached(q, cs, limit)
    ensures InTier(al, q, want, t, Enriched(name, answers, cs, Chosen(q, cs, limit))) ==
            InTier(al, q, want, t, Enriched(name, answers, cs, Everyone(cs)))
  {
    hide Tier, Filter, Enriched, Chosen, CapReached;
    var part, full := Enriched(name, answers, cs, Chosen(q, cs, limit)), Enriched(name, answers, cs, Everyone(cs));
    EnrichedLengths(name, answers, q, cs, limit);
    forall i | 0 <= i < |cs|
      ensures part[i] == full[i] || (Tier(al, q, want, part[i]) == None && Tier(al, q, want, full[i]) == None)
    {
      SameTierAt(al, name, answers, q, cs, limit, want, i);
    }
    FilterAgree(AtTier(al, q, want, t), part, full);
  }

  ghost predicate NoWindowedTitle(d: Decision)
  {
    d == Declined(NoTitleMatch) || d == Declined(YearMismatch)
  }

  /**
   Asking only about the window gives the verdict that asking about every candidate gives: the same
   match with the same confidence and provenance, or the same refusal. The one difference is that
   asking outside the window can name a year mismatch where nothing was called that.
   */
  lemma WindowIsEnough(al: Alphabet, name: string, answers: string -> Answer, q: Query, cs: seq<Candidate>, limit: int)
    requires !CapReached(q, cs, limit)
    ensures var part := Decide(al, q, Enriched(name, answers, cs, Chosen(q, cs, limit)));
            var full := Decide(al, q, Enriched(name, answers, cs, Everyone(cs)));
            part == full || (NoWindowedTitle(part) && NoWindowedTitle(full))
    ensures var part := Decide(al, q, Enriched(name, answers, cs, Chosen(q, cs, limit)));
            var full := Decide(al, q, Enriched(name, answers, cs, Everyone(cs)));
            Decide(al, q, cs) == Declined(NoTitleMatch) && part != full ==>
              part == Declined(NoTitleMatch) && full == Declined(YearMismatch)
  {
    hide NormalTitle, InTier, AnyTitled, Decide, Enriched, Chosen;
    var want := NormalTitle(al, q.title);
    var part, full := Enriched(name, answers, cs, Chosen(q, cs, limit)), Enriched(name, answers, cs, Everyone(cs));
    EnrichedLengths(name, answers, q, cs, limit);
    forall t
      ensures InTier(al, q, want, t, part) == InTier(al, q, want, t, full)
    {
      SameTiers(al, name, answers, q, cs, limit, want, t);
    }
    SameTiersAgree(al, q, part, full);
    if Decide(al, q, cs) == Declined(NoTitleMatch) {
      TitleUsable(al, q, cs);
      if AnyTitled(al, want, part) {
        TitledCarries(al, name, answers, q, cs, limit, want);
      }
    }
  }

  lemma EnrichedLengths(name: string, answers: string -> Answer, q: Query, cs: seq<Candidate>, limit: int)
    ensures |Enriched(name, answers, cs, Chosen(q, cs, limit))| == |Enriched(name, answers, cs, Everyone(cs))| == |cs|
  {
  }

  /** Lists with the same tiers get the same verdict, but for what a year mismatch is called. */
  lemma SameTiersAgree(al: Alphabet, q: Query, part: seq<Candidate>, full: seq<Candidate>)
    requires |part| == |full|
    requires forall t ::
      InTier(al, q, NormalTitle(al, q.title), t, part) == InTier(al, q, NormalTitle(al, q.title), t, full)
    ensures var d, e := Decide(al, q, part), Decide(al, q, full);
      && (d == e || (NoWindowedTitle(d) && NoWindowedTitle(e)))
      && (AnyTitled(al, NormalTitle(al, q.title), part) ==> AnyTitled(al, NormalTitle(al, q.title), full) ==> d == e)
      && (!AnyTitled(al, NormalTitle(al, q.title), part) && d != e ==>
            d == Declined(NoTitleMatch) && e == Declined(YearMismatch))
  {
    hide NormalTitle, InTier, AnyTitled, Via;
    var want := NormalTitle(al, q.title);
    forall t
      ensures !AnyTitled(al, want, part) ==> InTier(al, q, want, t, part) == []
      ensures !AnyTitled(al, want, full) ==> InTier(al, q, want, t, full) == []
    {
      if !AnyTitled(al, want, part) {
        NoTitleNoSurvivor(al, q, want, t, part);
      }
      if !AnyTitled(al, want, full) {
        NoTitleNoSurvivor(al, q, want, t, full);
      }
    }
  }

  lemma TitledCarries(al: Alphabet, name: string, answers: string -> Answer, q: Query, cs: seq<Candidate>, limit: int,
                      want: string)
    requires !AnyTitled(al, want, cs) && AnyTitled(al, want, Enriched(name, answers, cs, Chosen(q, cs, limit)))
    ensures AnyTitled(al, want, Enriched(name, answers, cs, Everyone(cs)))
  {
    hide Titled, Chosen, LookedUp;
    var part := Enriched(name, answers, cs, Chosen(q, cs, limit));
    var i :| 0 <= i < |part| && Titled(al, part[i], want);
    assert Enriched(name, answers, cs, Everyone(cs))[i] == part[i];
  }

  lemma TitleUsable(al: Alphabet, q: Query, cs: seq<Candidate>)
    requires Decide(al, q, cs) == Declined(NoTitleMatch)
    ensures NormalTitle(al, q.title) != "" && !AnyTitled(al, NormalTitle(al, q.title), cs)
  {
    hide NormalTitle, InTier, AnyTitled;
  }

  // ---- what the cap can change ----

  /** How far a candidate's year is from the query's; a query without a year tells no candidates apart. */
  function Far(q: Query, c: Candidate): nat
  {
    if q.year == 0 then 0 else if c.year < q.year then q.year - c.year else c.year - q.year
  }

  /** The tier a candidate of the window has once it carries the title. */
  function TierAt(q: Query, c: Candidate): Confidence
  {
    if q.year == 0 then TitleOnly else if c.year == q.year then Exact else YearNear
  }

  /** A candidate within the window that the cap leaves out. */
  ghost predicate LeftOut(name: string, q: Query, cs: seq<Candidate>, limit: int, k: nat)
  {
    k < |cs| && k in Window(q, cs) && k !in Chosen(q, cs, limit) && IdOf(name, cs[k]) != ""
  }

  /** A candidate asked about, and one left out whose year is no farther from the query's. */
  ghost predicate Pair(name: string, q: Query, cs: seq<Candidate>, limit: int, i: nat, k: nat)
  {
    && i < |cs| && i in Chosen(q, cs, limit) && IdOf(name, cs[i]) != ""
    && LeftOut(name, q, cs, limit, k) && Far(q, cs[k]) <= Far(q, cs[i])
  }

  /** Such a pair, the first nearer than any other entry asked about that is the same film as one of the two. */
  ghost predicate Crosses(name: string, q: Query, cs: seq<Candidate>, limit: int, i: nat, k: nat)
  {
    Pair(name, q, cs, limit, i, k) &&
    forall j :: 0 <= j < |cs| && j in Chosen(q, cs, limit) && j != i && EitherFilm(name, cs[j], cs[i], cs[k]) ==>
      Far(q, cs[i]) < Far(q, cs[j])
  }

  predicate EitherFilm(name: string, c: Candidate, d: Candidate, e: Candidate)
  {
    IdOf(name, c) == IdOf(name, d) || IdOf(name, c) == IdOf(name, e)
  }

  /** A candidate left out, nearer than any other entry that is the same film, none of which is asked about. */
  ghost predicate LostAlone(name: string, q: Query, cs: seq<Candidate>, limit: int, k: nat)
  {
    LeftOut(name, q, cs, limit, k) &&
    forall j :: 0 <= j < |cs| && j in Window(q, cs) && j != k && IdOf(name, cs[j]) == IdOf(name, cs[k]) ==>
      j !in Chosen(q, cs, limit) && Far(q, cs[k]) < Far(q, cs[j])
  }

  /** No two candidates that can be asked about are the same film. */
  ghost predicate AskedApart(name: string, cs: seq<Candidate>)
  {
    forall j, l :: 0 <= j < l < |cs| && IdOf(name, cs[j]) == IdOf(name, cs[l]) ==> IdOf(name, cs[j]) == ""
  }

  /** The capped look, and the look at every candidate. */
  function Capped(al: Alphabet, name: string, answers: string -> Answer, q: Query, cs: seq<Candidate>,
                  limit: int): Decision
  {
    Decide(al, q, Enriched(name, answers, cs, Chosen(q, cs, limit)))
  }

  function Uncapped(al: Alphabet, name: string, answers: string -> Answer, q: Query, cs: seq<Candidate>): Decision
  {
    Decide(al, q, Enriched(name, answers, cs, Everyone(cs)))
  }

  /** A film the capped look accepts is the one a look at every candidate accepts. */
  ghost predicate Trusted(al: Alphabet, name: string, answers: string -> Answer, q: Query, cs: seq<Candidate>,
                          limit: int)
  {
    Capped(al, name, answers, q, cs, limit).Matched? ==>
      Uncapped(al, name, answers, q, cs) == Capped(al, name, answers, q, cs, limit)
  }

  lemma TierOfTitled(al: Alphabet, q: Query, want: string, c: Candidate)
    ensures Tier(al, q, want, c).Some? <==> Titled(al, c, want) && InWindow(q, c)
    ensures Tier(al, q, want, c).Some? ==> Tier(al, q, want, c) == Some(TierAt(q, c))
  {
    hide Titled;
  }

  lemma NearerIsStronger(q: Query, c: Candidate, d: Candidate)
    requires InWindow(q, c) && InWindow(q, d)
    ensures Rank(TierAt(q, c)) <= Rank(TierAt(q, d)) <==> Far(q, c) <= Far(q, d)
    ensures TierAt(q, c) == TierAt(q, d) <==> Far(q, c) == Far(q, d)
  {
  }

  /** Only an answered lookup gives a tier, and it is that of the candidate's year. */
  lemma TierAfterLookup(al: Alphabet, name: string, answers: string -> Answer, q: Query, want: string, c: Candidate)
    requires !Titled(al, c, want)
    ensures Tier(al, q, want, c) == None
    ensures var more := LookedUp(name, answers, c);
      Tier(al, q, want, more).Some? ==>
        IdOf(name, c) != "" && InWindow(q, c) && Tier(al, q, want, more) == Some(TierAt(q, c))
  {
    hide Titled;
  }

  /** Where the two looks differ the capped one has no tier. */
  lemma PartOrUntitled(al: Alphabet, name: string, answers: string -> Answer, q: Query, cs: seq<Candidate>,
                       limit: int, j: nat)
    requires j < |cs| && Decide(al, q, cs) == Declined(NoTitleMatch)
    ensures var part, full := Enriched(name, answers, cs, Chosen(q, cs, limit)),
      Enriched(name, answers, cs, Everyone(cs));
      var want := NormalTitle(al, q.title);
      && (j in Chosen(q, cs, limit) ==> part[j] == full[j])
      && (j !in Chosen(q, cs, limit) ==> Tier(al, q, want, part[j]) == None)
      && (Tier(al, q, want, full[j]).Some? ==>
            IdOf(name, cs[j]) != "" && j in Window(q, cs) && Tier(al, q, want, full[j]) == Some(TierAt(q, cs[j])))
  {
    hide NormalTitle, InTier, Chosen, IdOf, Tier, Titled, LookedUp, InWindow;
    TitleUsable(al, q, cs);
    TierAfterLookup(al, name, answers, q, NormalTitle(al, q.title), cs[j]);
  }

  lemma DecidedVia(al: Alphabet, q: Query, cs: seq<Candidate>, d: Decision)
    requires Decide(al, q, cs) == d && d.Matched?
    ensures d == Matched(d.candidate, d.confidence, Via(al, d.candidate, NormalTitle(al, q.title)))
  {
    hide NormalTitle, InTier, AnyTitled, Via;
  }

  /** An accepted film stands at one position, and every other candidate with a tier has a weaker one. */
  ghost predicate BestAt(al: Alphabet, q: Query, cs: seq<Candidate>, i: nat, t: Confidence)
  {
    && i < |cs| && Tier(al, q, NormalTitle(al, q.title), cs[i]) == Some(t)
    && forall j :: 0 <= j < |cs| && j != i && Tier(al, q, NormalTitle(al, q.title), cs[j]).Some? ==>
         Rank(t) < Rank(Tier(al, q, NormalTitle(al, q.title), cs[j]).value)
  }

  lemma AcceptedAt(al: Alphabet, q: Query, cs: seq<Candidate>, d: Decision) returns (i: nat)
    requires Decide(al, q, cs) == d && d.Matched?
    ensures i < |cs| && BestAt(al, q, cs, i, d.confidence) && cs[i] == d.candidate
  {
    hide NormalTitle, Tier, Filter, AnyTitled, Via, Decide, Rank;
    var want, t := NormalTitle(al, q.title), d.confidence;
    DecidedVia(al, q, cs, d);
    AcceptsSoleBest(al, q, cs, t, d.candidate);
    i := SoleIndex(AtTier(al, q, want, t), cs);
    forall j | 0 <= j < |cs| && j != i && Tier(al, q, want, cs[j]).Some?
      ensures Rank(t) < Rank(Tier(al, q, want, cs[j]).value)
    {
      var u := Tier(al, q, want, cs[j]).value;
      RanksApart(t, u);
      assert cs[j] in cs;
      if u == t {
        FilterTwo(AtTier(al, q, want, t), cs, if i < j then i else j, if i < j then j else i);
      } else if Rank(u) < Rank(t) {
        assert Survivors(al, q, u, cs) == 0;
        FilterMembers(AtTier(al, q, want, u), cs);
      }
    }
  }

  lemma RanksApart(t: Confidence, u: Confidence)
    ensures Rank(t) == Rank(u) <==> t == u
  {
  }

  /** Entries of one film are titled alike by a lookup. */
  lemma SameFilmSameTitle(al: Alphabet, name: string, answers: string -> Answer, want: string, c: Candidate,
                          d: Candidate)
    requires !Titled(al, c, want) && !Titled(al, d, want) && IdOf(name, c) == IdOf(name, d)
    ensures Titled(al, LookedUp(name, answers, c), want) <==> Titled(al, LookedUp(name, answers, d), want)
  {
    hide NormalTitle;
  }

  /** So an asked-about entry of a film that has a tier has one too, that of its year. */
  lemma SameFilmTier(al: Alphabet, name: string, answers: string -> Answer, q: Query, cs: seq<Candidate>, limit: int,
                     i: nat, j: nat)
    requires Decide(al, q, cs) == Declined(NoTitleMatch) && i < |cs| && j < |cs|
    requires j in Chosen(q, cs, limit) && IdOf(name, cs[j]) == IdOf(name, cs[i])
    requires Tier(al, q, NormalTitle(al, q.title), Enriched(name, answers, cs, Everyone(cs))[i]).Some?
    ensures Tier(al, q, NormalTitle(al, q.title), Enriched(name, answers, cs, Chosen(q, cs, limit))[j]) ==
      Some(TierAt(q, cs[j]))
  {
    hide NormalTitle, Tier, Titled, Chosen, Window, IdOf, Decide, TierAt, InWindow, LookedUp;
    var want := NormalTitle(al, q.title);
    AllAsked(cs, i);
    TitleUsable(al, q, cs);
    SameFilmSameTitle(al, name, answers, want, cs[i], cs[j]);
    TierOfTitled(al, q, want, LookedUp(name, answers, cs[i]));
    TierOfTitled(al, q, want, LookedUp(name, answers, cs[j]));
    ChosenInWindow(q, cs, limit, j);
    InWindowExactly(q, cs, j);
    LookupKeeps(name, answers, q, cs[j]);
  }

  /** Without a crossing no left-out candidate reaches the accepted tier or a stronger one. */
  lemma NoCrossingNoRival(al: Alphabet, name: string, answers: string -> Answer, q: Query, cs: seq<Candidate>,
                          limit: int, i: nat, j: nat, t: Confidence, u: Confidence)
    requires Decide(al, q, cs) == Declined(NoTitleMatch) && i < |cs| && j < |cs|
    requires !Crosses(name, q, cs, limit, i, j) && Rank(u) <= Rank(t)
    requires BestAt(al, q, Enriched(name, answers, cs, Chosen(q, cs, limit)), i, t)
    ensures var part, full := Enriched(name, answers, cs, Chosen(q, cs, limit)),
      Enriched(name, answers, cs, Everyone(cs));
      var p := AtTier(al, q, NormalTitle(al, q.title), u);
      part[j] == full[j] || (!p(part[j]) && !p(full[j]))
  {
    hide NormalTitle, Tier, Chosen, Enriched, Window, IdOf, Decide, TierAt, InWindow, Far, Rank, BestAt, Crosses;
    var full := Enriched(name, answers, cs, Everyone(cs));
    EnrichedLengths(name, answers, q, cs, limit);
    PartOrUntitled(al, name, answers, q, cs, limit, i);
    PartOrUntitled(al, name, answers, q, cs, limit, j);
    if j !in Chosen(q, cs, limit) && Tier(al, q, NormalTitle(al, q.title), full[j]) == Some(u) {
      RivalCrosses(al, name, answers, q, cs, limit, i, j, t);
    }
  }

  lemma RivalCrosses(al: Alphabet, name: string, answers: string -> Answer, q: Query, cs: seq<Candidate>,
                     limit: int, i: nat, k: nat, t: Confidence)
    requires Decide(al, q, cs) == Declined(NoTitleMatch) && i < |cs| && k < |cs| && k !in Chosen(q, cs, limit)
    requires BestAt(al, q, Enriched(name, answers, cs, Chosen(q, cs, limit)), i, t)
    requires var full := Enriched(name, answers, cs, Everyone(cs));
      var u := Tier(al, q, NormalTitle(al, q.title), full[k]); u.Some? && Rank(u.value) <= Rank(t)
    ensures Crosses(name, q, cs, limit, i, k)
  {
    hide NormalTitle, Tier, Chosen, Enriched, Window, IdOf, Decide, TierAt, InWindow, Far, Rank;
    EnrichedLengths(name, answers, q, cs, limit);
    PartOrUntitled(al, name, answers, q, cs, limit, i);
    PartOrUntitled(al, name, answers, q, cs, limit, k);
    InWindowExactly(q, cs, i);
    InWindowExactly(q, cs, k);
    NearerIsStronger(q, cs[k], cs[i]);
    forall j | 0 <= j < |cs| && j in Chosen(q, cs, limit) && j != i && EitherFilm(name, cs[j], cs[i], cs[k])
      ensures Far(q, cs[i]) < Far(q, cs[j])
    {
      SameFilmTier(al, name, answers, q, cs, limit, if IdOf(name, cs[j]) == IdOf(name, cs[i]) then i else k, j);
      ChosenInWindow(q, cs, limit, j);
      InWindowExactly(q, cs, j);
      NearerIsStronger(q, cs[j], cs[i]);
    }
  }

  lemma InWindowExactly(q: Query, cs: seq<Candidate>, j: nat)
    requires j < |cs|
    ensures j in Window(q, cs) <==> InWindow(q, cs[j])
  {
    hide InWindow;
  }

  /** Without a crossing what the capped look accepts is trusted, whatever the provider answers. */
  lemma NoCrossingTrusted(al: Alphabet, name: string, answers: string -> Answer, q: Query, cs: seq<Candidate>,
                          limit: int)
    requires Decide(al, q, cs) == Declined(NoTitleMatch)
    requires forall i, k :: !Crosses(name, q, cs, limit, i, k)
    ensures Trusted(al, name, answers, q, cs, limit)
  {
    hide NormalTitle, Tier, Filter, AnyTitled, Via, Decide, Chosen, Enriched, Window, Crosses, BestAt;
    var want := NormalTitle(al, q.title);
    var part, full := Enriched(name, answers, cs, Chosen(q, cs, limit)), Enriched(name, answers, cs, Everyone(cs));
    EnrichedLengths(name, answers, q, cs, limit);
    var d := Decide(al, q, part);
    if d.Matched? {
      DecidedVia(al, q, part, d);
      AcceptsSoleBest(al, q, part, d.confidence, d.candidate);
      var i := AcceptedAt(al, q, part, d);
      forall u | Rank(u) <= Rank(d.confidence)
        ensures InTier(al, q, want, u, part) == InTier(al, q, want, u, full)
      {
        forall j | 0 <= j < |cs|
          ensures part[j] == full[j] || (!AtTier(al, q, want, u)(part[j]) && !AtTier(al, q, want, u)(full[j]))
        {
          NoCrossingNoRival(al, name, answers, q, cs, limit, i, j, d.confidence, u);
        }
        FilterAgree(AtTier(al, q, want, u), part, full);
      }
      AcceptsSoleBest(al, q, full, d.confidence, d.candidate);
    }
  }

  /** The answers of a provider at which these films alone carry a title. */
  function TitledOnly(films: set<string>, title: string): string -> Answer
  {
    id => if id in films then Titles([title]) else Titles([])
  }

  lemma TitledLookup(al: Alphabet, name: string, films: set<string>, q: Query, c: Candidate)
    requires !Titled(al, c, NormalTitle(al, q.title))
    ensures Titled(al, LookedUp(name, TitledOnly(films, q.title), c), NormalTitle(al, q.title)) <==>
            IdOf(name, c) in films && IdOf(name, c) != ""
  {
    hide NormalTitle;
    var more := LookedUp(name, TitledOnly(films, q.title), c);
    if IdOf(name, c) in films && IdOf(name, c) != "" {
      assert NormalTitle(al, more.altTitles[0]) == NormalTitle(al, q.title);
    }
  }

  /** Then a candidate asked about has a tier exactly when it is one of those films and within the window. */
  lemma TitledTiers(al: Alphabet, name: string, films: set<string>, q: Query, cs: seq<Candidate>,
                    chosen: seq<nat>, j: nat)
    requires j < |cs| && Decide(al, q, cs) == Declined(NoTitleMatch)
    ensures var more := Enriched(name, TitledOnly(films, q.title), cs, chosen)[j];
      && more.ids == cs[j].ids
      && Tier(al, q, NormalTitle(al, q.title), more) ==
         if j in chosen && IdOf(name, cs[j]) in films && IdOf(name, cs[j]) != "" && j in Window(q, cs)
         then Some(TierAt(q, cs[j])) else None
  {
    hide NormalTitle, IdOf, Titled, Tier, Decide, TierAt, InWindow, TitledOnly;
    var more := Enriched(name, TitledOnly(films, q.title), cs, chosen)[j];
    TitleUsable(al, q, cs);
    TitledLookup(al, name, films, q, cs[j]);
    TierOfTitled(al, q, NormalTitle(al, q.title), more);
    LookupKeeps(name, TitledOnly(films, q.title), q, cs[j]);
  }

  lemma LookupKeeps(name: string, answers: string -> Answer, q: Query, c: Candidate)
    ensures var more := LookedUp(name, answers, c);
      more.ids == c.ids && (InWindow(q, more) <==> InWindow(q, c)) && TierAt(q, more) == TierAt(q, c)
  {
  }

  lemma SoleAtTier(al: Alphabet, q: Query, cs: seq<Candidate>, t: Confidence, i: nat)
    requires NormalTitle(al, q.title) != "" && BestAt(al, q, cs, i, t)
    ensures var d := Decide(al, q, cs); d.Matched? && d.candidate == cs[i] && d.confidence == t
  {
    hide NormalTitle, Filter, Tier, AnyTitled, Decide;
    var want := NormalTitle(al, q.title);
    FilterOne(AtTier(al, q, want, t), cs, i);
    forall u | Rank(u) < Rank(t)
      ensures Survivors(al, q, u, cs) == 0
    {
      FilterNone(AtTier(al, q, want, u), cs);
    }
    BestTierDecides(al, q, cs, t);
  }

  lemma TwoAtTier(al: Alphabet, q: Query, cs: seq<Candidate>, t: Confidence, i: nat, k: nat)
    requires NormalTitle(al, q.title) != "" && i < |cs| && k < |cs| && i != k
    requires Tier(al, q, NormalTitle(al, q.title), cs[i]) == Tier(al, q, NormalTitle(al, q.title), cs[k]) == Some(t)
    requires forall j :: 0 <= j < |cs| && j != i && j != k ==> Tier(al, q, NormalTitle(al, q.title), cs[j]) == None
    ensures Decide(al, q, cs) == Declined(Ambiguous)
  {
    hide NormalTitle, Filter, Tier, AnyTitled, Decide;
    var want := NormalTitle(al, q.title);
    FilterTwo(AtTier(al, q, want, t), cs, if i < k then i else k, if i < k then k else i);
    forall u | Rank(u) < Rank(t)
      ensures Survivors(al, q, u, cs) == 0
    {
      FilterNone(AtTier(al, q, want, u), cs);
    }
    AmbiguousNeverFallsThrough(al, q, cs, t);
  }

  lemma AllAsked(cs: seq<Candidate>, j: nat)
    requires j < |cs|
    ensures j in Everyone(cs)
  {
  }

  /**
   The cap does hide films: a candidate of the window that it leaves out, with a year or without, may be
   the one that carries the title.
   */
  lemma CapLosesAMatch(al: Alphabet, name: string, q: Query, cs: seq<Candidate>, limit: int, k: nat)
    returns (answers: string -> Answer)
    requires Decide(al, q, cs) == Declined(NoTitleMatch) && LostAlone(name, q, cs, limit, k)
    ensures Capped(al, name, answers, q, cs, limit) == Declined(NoTitleMatch)
    ensures var full := Uncapped(al, name, answers, q, cs); full.Matched? && full.candidate.ids == cs[k].ids
  {
    hide NormalTitle, Tier, Chosen, Enriched, Window, IdOf, Decide, TierAt, TitledOnly, AnyTitled, Far, Rank, InWindow;
    var films := {IdOf(name, cs[k])};
    answers := TitledOnly(films, q.title);
    var part, full := Enriched(name, answers, cs, Chosen(q, cs, limit)), Enriched(name, answers, cs, Everyone(cs));
    TitleUsable(al, q, cs);
    EnrichedLengths(name, answers, q, cs, limit);
    forall j | 0 <= j < |cs|
      ensures !Titled(al, part[j], NormalTitle(al, q.title))
      ensures full[j].ids == cs[j].ids
      ensures j == k ==> Tier(al, q, NormalTitle(al, q.title), full[j]) == Some(TierAt(q, cs[k]))
      ensures j != k && Tier(al, q, NormalTitle(al, q.title), full[j]).Some? ==>
        Rank(TierAt(q, cs[k])) < Rank(Tier(al, q, NormalTitle(al, q.title), full[j]).value)
    {
      AllAsked(cs, j);
      TitledTiers(al, name, films, q, cs, Everyone(cs), j);
      if j in Chosen(q, cs, limit) {
        ChosenInWindow(q, cs, limit, j);
      }
      OthersUntitled(al, name, films, q, cs, limit, j);
      InWindowExactly(q, cs, j);
      InWindowExactly(q, cs, k);
      if j in Window(q, cs) {
        NearerIsStronger(q, cs[j], cs[k]);
      }
    }
    NoneTitled(al, q, part);
    SoleAtTier(al, q, full, TierAt(q, cs[k]), k);
  }

  /** Some answers hide the one match exactly when the cap leaves out such a candidate. */
  lemma CapLosesExactly(al: Alphabet, name: string, q: Query, cs: seq<Candidate>, limit: int)
    requires Decide(al, q, cs) == Declined(NoTitleMatch)
    ensures (exists answers: string -> Answer ::
               Capped(al, name, answers, q, cs, limit) == Declined(NoTitleMatch)
               && Uncapped(al, name, answers, q, cs).Matched?)
            <==> exists k :: LostAlone(name, q, cs, limit, k)
  {
    hide LostAlone, Capped, Uncapped, Decide;
    if k :| LostAlone(name, q, cs, limit, k) {
      var answers := CapLosesAMatch(al, name, q, cs, limit, k);
    }
    if answers: string -> Answer :| Capped(al, name, answers, q, cs, limit) == Declined(NoTitleMatch)
                                    && Uncapped(al, name, answers, q, cs).Matched? {
      var k := HiddenLost(al, name, answers, q, cs, limit);
    }
  }

  lemma HiddenLost(al: Alphabet, name: string, answers: string -> Answer, q: Query, cs: seq<Candidate>, limit: int)
    returns (k: nat)
    requires Decide(al, q, cs) == Declined(NoTitleMatch)
    requires Capped(al, name, answers, q, cs, limit) == Declined(NoTitleMatch)
    requires Uncapped(al, name, answers, q, cs).Matched?
    ensures LostAlone(name, q, cs, limit, k)
  {
    hide NormalTitle, Tier, Titled, Chosen, Enriched, Window, IdOf, Decide, TierAt, AnyTitled, Far, Rank, InWindow,
      LookedUp;
    var want := NormalTitle(al, q.title);
    var part, full := Enriched(name, answers, cs, Chosen(q, cs, limit)), Enriched(name, answers, cs, Everyone(cs));
    EnrichedLengths(name, answers, q, cs, limit);
    var d := Uncapped(al, name, answers, q, cs);
    k := AcceptedAt(al, q, full, d);
    forall j | 0 <= j < |cs|
      ensures Tier(al, q, want, part[j]) == None
    {
      TitleUsable(al, q, part);
      UntitledIn(al, want, part, j);
      TierOfTitled(al, q, want, part[j]);
    }
    PartOrUntitled(al, name, answers, q, cs, limit, k);
    InWindowExactly(q, cs, k);
    forall j | 0 <= j < |cs| && j in Window(q, cs) && j != k && IdOf(name, cs[j]) == IdOf(name, cs[k])
      ensures j !in Chosen(q, cs, limit) && Far(q, cs[k]) < Far(q, cs[j])
    {
      if j in Chosen(q, cs, limit) {
        SameFilmTier(al, name, answers, q, cs, limit, k, j);
      }
      SameFilmFull(al, name, answers, q, cs, k, j);
      InWindowExactly(q, cs, j);
      NearerIsStronger(q, cs[j], cs[k]);
    }
  }

  lemma UntitledIn(al: Alphabet, want: string, cs: seq<Candidate>, j: nat)
    requires !AnyTitled(al, want, cs) && j < |cs|
    ensures !Titled(al, cs[j], want)
  {
    hide Titled;
  }

  lemma SameFilmFull(al: Alphabet, name: string, answers: string -> Answer, q: Query, cs: seq<Candidate>, i: nat,
                     j: nat)
    requires Decide(al, q, cs) == Declined(NoTitleMatch) && i < |cs| && j < |cs| && j in Window(q, cs)
    requires IdOf(name, cs[j]) == IdOf(name, cs[i])
    requires Tier(al, q, NormalTitle(al, q.title), Enriched(name, answers, cs, Everyone(cs))[i]).Some?
    ensures Tier(al, q, NormalTitle(al, q.title), Enriched(name, answers, cs, Everyone(cs))[j]) ==
      Some(TierAt(q, cs[j]))
  {
    hide NormalTitle, Tier, Titled, Window, IdOf, Decide, TierAt, InWindow, LookedUp;
    var want := NormalTitle(al, q.title);
    AllAsked(cs, i);
    AllAsked(cs, j);
    TitleUsable(al, q, cs);
    SameFilmSameTitle(al, name, answers, want, cs[i], cs[j]);
    TierOfTitled(al, q, want, LookedUp(name, answers, cs[i]));
    TierOfTitled(al, q, want, LookedUp(name, answers, cs[j]));
    InWindowExactly(q, cs, j);
    LookupKeeps(name, answers, q, cs[j]);
  }

  lemma OthersUntitled(al: Alphabet, name: string, films: set<string>, q: Query, cs: seq<Candidate>, limit: int,
                       j: nat)
    requires j < |cs| && Decide(al, q, cs) == Declined(NoTitleMatch)
    requires j in Chosen(q, cs, limit) ==> IdOf(name, cs[j]) !in films || IdOf(name, cs[j]) == ""
    ensures !Titled(al, Enriched(name, TitledOnly(films, q.title), cs, Chosen(q, cs, limit))[j],
                    NormalTitle(al, q.title))
  {
    hide NormalTitle, IdOf, Titled, Chosen, Decide, TitledOnly;
    TitleUsable(al, q, cs);
    TitledLookup(al, name, films, q, cs[j]);
  }

  lemma NoneTitled(al: Alphabet, q: Query, cs: seq<Candidate>)
    requires NormalTitle(al, q.title) != "" && cs != []
    requires forall j :: 0 <= j < |cs| ==> !Titled(al, cs[j], NormalTitle(al, q.title))
    ensures Decide(al, q, cs) == Declined(NoTitleMatch)
  {
    hide NormalTitle, Titled;
  }

  /** The full look names nothing at the tier of a crossing: a nearer film instead, or no film. */
  ghost predicate Overtaken(part: Decision, full: Decision)
  {
    part.Matched? && (full == Declined(Ambiguous) || (full.Matched? && Rank(full.confidence) < Rank(part.confidence)))
  }

  /**
   At a crossing some answers make the capped look accept a film that a look at every candidate refuses.
   When no film is listed twice that look accepts the nearer one left out, or refuses two equally near
   ones as ambiguous.
   */
  lemma CrossingDecides(al: Alphabet, name: string, q: Query, cs: seq<Candidate>, limit: int, i: nat, k: nat)
    returns (answers: string -> Answer)
    requires Decide(al, q, cs) == Declined(NoTitleMatch) && Crosses(name, q, cs, limit, i, k)
    ensures var part := Capped(al, name, answers, q, cs, limit); part.Matched? && part.candidate.ids == cs[i].ids
    ensures Overtaken(Capped(al, name, answers, q, cs, limit), Uncapped(al, name, answers, q, cs))
    ensures var full := Uncapped(al, name, answers, q, cs);
      AskedApart(name, cs) ==>
        if Far(q, cs[k]) < Far(q, cs[i]) then full.Matched? && full.candidate.ids == cs[k].ids
        else full == Declined(Ambiguous)
  {
    hide NormalTitle, Tier, Chosen, Enriched, Window, IdOf, Decide, TierAt, TitledOnly, InWindow, Far, Rank, Crosses;
    CrossingFacts(name, q, cs, limit, i, k);
    var films := {IdOf(name, cs[i]), IdOf(name, cs[k])};
    answers := TitledOnly(films, q.title);
    var want := NormalTitle(al, q.title);
    var part, full := Enriched(name, answers, cs, Chosen(q, cs, limit)), Enriched(name, answers, cs, Everyone(cs));
    TitleUsable(al, q, cs);
    EnrichedLengths(name, answers, q, cs, limit);
    CrossingPart(al, name, films, q, cs, limit, i, k);
    SoleAtTier(al, q, part, TierAt(q, cs[i]), i);
    forall j | 0 <= j < |cs|
      ensures part[j].ids == full[j].ids == cs[j].ids
      ensures Tier(al, q, want, full[j]) ==
        if IdOf(name, cs[j]) in films && IdOf(name, cs[j]) != "" && j in Window(q, cs) then Some(TierAt(q, cs[j]))
        else None
    {
      AllAsked(cs, j);
      TitledTiers(al, name, films, q, cs, Chosen(q, cs, limit), j);
      TitledTiers(al, name, films, q, cs, Everyone(cs), j);
    }
    NearerIsStronger(q, cs[k], cs[i]);
    NearerIsStronger(q, cs[i], cs[k]);
    StrongerOvertakes(al, q, full, i, k, TierAt(q, cs[i]), TierAt(q, cs[k]));
    if AskedApart(name, cs) {
      assert forall j :: 0 <= j < |cs| && j != i && j != k ==> Tier(al, q, want, full[j]) == None;
      if Far(q, cs[k]) < Far(q, cs[i]) {
        SoleAtTier(al, q, full, TierAt(q, cs[k]), k);
      } else {
        TwoAtTier(al, q, full, TierAt(q, cs[i]), i, k);
      }
    }
  }

  lemma CrossingFacts(name: string, q: Query, cs: seq<Candidate>, limit: int, i: nat, k: nat)
    requires Crosses(name, q, cs, limit, i, k)
    ensures i < |cs| && k < |cs| && i != k && Far(q, cs[k]) <= Far(q, cs[i])
    ensures i in Window(q, cs) && k in Window(q, cs) && InWindow(q, cs[i]) && InWindow(q, cs[k])
    ensures IdOf(name, cs[i]) != "" && IdOf(name, cs[k]) != ""
  {
    hide Chosen, Window, IdOf, Far, InWindow;
    ChosenInWindow(q, cs, limit, i);
    InWindowExactly(q, cs, i);
    InWindowExactly(q, cs, k);
  }

  /** In the capped look the first of the two is the best. */
  lemma CrossingPart(al: Alphabet, name: string, films: set<string>, q: Query, cs: seq<Candidate>, limit: int, i: nat,
                     k: nat)
    requires Decide(al, q, cs) == Declined(NoTitleMatch) && Crosses(name, q, cs, limit, i, k)
    requires i < |cs| && k < |cs| && films == {IdOf(name, cs[i]), IdOf(name, cs[k])}
    ensures BestAt(al, q, Enriched(name, TitledOnly(films, q.title), cs, Chosen(q, cs, limit)), i, TierAt(q, cs[i]))
  {
    hide NormalTitle, Tier, Chosen, Enriched, Window, IdOf, Decide, TierAt, TitledOnly, InWindow, Far, Rank;
    CrossingFacts(name, q, cs, limit, i, k);
    EnrichedLengths(name, TitledOnly(films, q.title), q, cs, limit);
    TitledTiers(al, name, films, q, cs, Chosen(q, cs, limit), i);
    var part := Enriched(name, TitledOnly(films, q.title), cs, Chosen(q, cs, limit));
    forall j | 0 <= j < |part| && j != i && Tier(al, q, NormalTitle(al, q.title), part[j]).Some?
      ensures Rank(TierAt(q, cs[i])) < Rank(Tier(al, q, NormalTitle(al, q.title), part[j]).value)
    {
      TitledTiers(al, name, films, q, cs, Chosen(q, cs, limit), j);
      InWindowExactly(q, cs, j);
      NearerIsStronger(q, cs[j], cs[i]);
    }
  }

  lemma StrongerOvertakes(al: Alphabet, q: Query, cs: seq<Candidate>, i: nat, k: nat, t: Confidence, u: Confidence)
    requires NormalTitle(al, q.title) != "" && i < |cs| && k < |cs| && i != k && Rank(u) <= Rank(t)
    requires Tier(al, q, NormalTitle(al, q.title), cs[i]) == Some(t)
    requires Tier(al, q, NormalTitle(al, q.title), cs[k]) == Some(u)
    ensures var d := Decide(al, q, cs);
      d == Declined(Ambiguous) || (d.Matched? && Rank(d.confidence) < Rank(t))
  {
    hide NormalTitle, Tier, Decide, Rank;
    var d := Decide(al, q, cs);
    SurvivorDecides(al, q, cs, k);
    if d.Matched? {
      var j := AcceptedAt(al, q, cs, d);
      RanksApart(t, d.confidence);
    }
  }

  /** Once any candidate has a tier, one film is accepted or several refused. */
  lemma SurvivorDecides(al: Alphabet, q: Query, cs: seq<Candidate>, k: nat)
    requires NormalTitle(al, q.title) != "" && k < |cs| && Tier(al, q, NormalTitle(al, q.title), cs[k]).Some?
    ensures Decide(al, q, cs).Matched? || Decide(al, q, cs) == Declined(Ambiguous)
  {
    hide NormalTitle, Filter, AnyTitled, Tier, Via;
    var want := NormalTitle(al, q.title);
    var t := Tier(al, q, want, cs[k]).value;
    FilterMembers(AtTier(al, q, want, t), cs);
    assert cs[k] in InTier(al, q, want, t, cs) && (t == Exact || t == YearNear || t == TitleOnly);
    if !AnyTitled(al, want, cs) {
      NoTitleNoSurvivor(al, q, want, t, cs);
    }
  }

  lemma ChosenInWindow(q: Query, cs: seq<Candidate>, limit: int, i: nat)
    requires i in Chosen(q, cs, limit)
    ensures i in Window(q, cs)
  {
    hide InWindow;
  }

  /**
   What the capped look accepts is what a look at every candidate accepts, for every answer the provider
   may give, exactly when there is no crossing. Where no film is listed twice: when every candidate the
   cap leaves out is farther from the query's year than every one it keeps.
   */
  lemma CapTrustedExactly(al: Alphabet, name: string, q: Query, cs: seq<Candidate>, limit: int)
    requires Decide(al, q, cs) == Declined(NoTitleMatch)
    ensures (forall answers: string -> Answer :: Trusted(al, name, answers, q, cs, limit)) <==>
            forall i, k :: !Crosses(name, q, cs, limit, i, k)
    ensures AskedApart(name, cs) ==>
      forall i, k :: Crosses(name, q, cs, limit, i, k) <==> Pair(name, q, cs, limit, i, k)
  {
    hide Crosses, Trusted, Decide, Pair, Overtaken;
    if forall i, k :: !Crosses(name, q, cs, limit, i, k) {
      forall answers: string -> Answer
        ensures Trusted(al, name, answers, q, cs, limit)
      {
        NoCrossingTrusted(al, name, answers, q, cs, limit);
      }
    } else {
      var i, k :| Crosses(name, q, cs, limit, i, k);
      var answers := CrossingDecides(al, name, q, cs, limit, i, k);
      NotTrusted(al, name, answers, q, cs, limit);
    }
    if AskedApart(name, cs) {
      forall i, k
        ensures Crosses(name, q, cs, limit, i, k) <==> Pair(name, q, cs, limit, i, k)
      {
        ApartCrosses(name, q, cs, limit, i, k);
      }
    }
  }

  lemma ApartCrosses(name: string, q: Query, cs: seq<Candidate>, limit: int, i: nat, k: nat)
    requires AskedApart(name, cs)
    ensures Crosses(name, q, cs, limit, i, k) <==> Pair(name, q, cs, limit, i, k)
  {
    hide Chosen, Window, IdOf, Far;
  }

  lemma NotTrusted(al: Alphabet, name: string, answers: string -> Answer, q: Query, cs: seq<Candidate>, limit: int)
    requires Overtaken(Capped(al, name, answers, q, cs, limit), Uncapped(al, name, answers, q, cs))
    ensures !Trusted(al, name, answers, q, cs, limit)
  {
    hide Capped, Uncapped;
  }

  /** Without a year nothing is farther: there is such a pair as soon as the cap is reached. */
  lemma CapWithoutYear(name: string, q: Query, cs: seq<Candidate>, limit: int)
    requires q.year == 0 && CapReached(q, cs, limit) && forall j :: 0 <= j < |cs| ==> IdOf(name, cs[j]) != ""
    ensures exists i, k ::
      Pair(name, q, cs, limit, i, k) && (AskedApart(name, cs) ==> Crosses(name, q, cs, limit, i, k))
  {
    hide IdOf, InWindow;
    var i, k := Window(q, cs)[0], Window(q, cs)[limit];
    assert Chosen(q, cs, limit)[0] == i;
    assert Pair(name, q, cs, limit, i, k);
    if AskedApart(name, cs) {
      ApartCrosses(name, q, cs, limit, i, k);
    }
  }

  // ---- what more titles can change ----

  /** Every added title is one more exact comparison. */
  ghost predicate OnlyAddsTitles(cs: seq<Candidate>, more: seq<Candidate>)
  {
    |cs| == |more| &&
    forall i :: 0 <= i < |cs| ==>
      more[i] == cs[i].(altTitles := more[i].altTitles) &&
      forall j :: 0 <= j < |cs[i].altTitles| ==> cs[i].altTitles[j] in more[i].altTitles
  }

  lemma TierSurvives(al: Alphabet, q: Query, want: string, c: Candidate, more: Candidate)
    requires more == c.(altTitles := more.altTitles)
    requires forall j :: 0 <= j < |c.altTitles| ==> c.altTitles[j] in more.altTitles
    requires Tier(al, q, want, c) == Some(Exact)
    ensures Tier(al, q, want, more) == Some(Exact)
    ensures Via(al, more, want) == Via(al, c, want)
  {
    hide NormalTitle;
    if ByAlternative(al, c, want) {
      var j :| 0 <= j < |c.altTitles| && NormalTitle(al, c.altTitles[j]) == want;
      var k :| 0 <= k < |more.altTitles| && more.altTitles[k] == c.altTitles[j];
      assert ByAlternative(al, more, want);
    }
  }

  lemma {:induction false} SoleIndex(p: Candidate -> bool, cs: seq<Candidate>) returns (k: nat)
    requires |Filter(p, cs)| == 1
    ensures k < |cs| && p(cs[k]) && Filter(p, cs) == [cs[k]]
  {
    var last := |cs| - 1;
    if p(cs[last]) {
      k := last;
    } else {
      k := SoleIndex(p, cs[..last]);
    }
  }

  /** More titles can keep an exact match or make it ambiguous, and nothing else. */
  lemma MoreTitlesKeepOrBlock(al: Alphabet, q: Query, cs: seq<Candidate>, more: seq<Candidate>)
    requires OnlyAddsTitles(cs, more)
    requires Decide(al, q, cs).Matched? && Decide(al, q, cs).confidence == Exact
    ensures Decide(al, q, more) == Declined(Ambiguous) ||
            exists k :: 0 <= k < |cs| && cs[k] == Decide(al, q, cs).candidate
                        && Decide(al, q, more) == Matched(more[k], Exact, Decide(al, q, cs).viaAlternative)
  {
    hide NormalTitle, Filter, Tier, Via;
    var want := NormalTitle(al, q.title);
    var p := AtTier(al, q, want, Exact);
    var k := SoleIndex(p, cs);
    TierSurvives(al, q, want, cs[k], more[k]);
    forall i | 0 <= i < |cs| && p(cs[i])
      ensures p(more[i])
    {
      TierSurvives(al, q, want, cs[i], more[i]);
    }
    FilterGrows(p, cs, more);
    FilterMembers(p, more);
    assert more[k] in Filter(p, more);
    if !AnyTitled(al, want, more) {
      NoTitleNoSurvivor(al, q, want, Exact, more);
    }
    if |Filter(p, more)| == 1 {
      assert Filter(p, more)[0] == more[k];
    }
  }
}
