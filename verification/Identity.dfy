/**
 Which real film an item is (internal/repository/identity.go, internal/service/identity.go):
 guarded transitions, and what survives any run of passes, corrections and resets. Each
 repository method is one step; timestamps are left out.
 */
module Identity {
  import opened Text
  import Lists

  type Item = nat
  type Library = nat
  type Ids = map<string, string>

  datatype Status = Pending | Matched | Unmatched | Manual

  datatype Row = Row(
    status: Status, provider: Option<string>, confidence: Option<string>, via: Option<string>, reason: Option<string>)

  const FRESH := Row(Pending, None, None, None, None)

  datatype Db = Db(identity: map<Item, Row>, ids: map<Item, Ids>)

  function IdsOf(db: Db, item: Item): Ids
  {
    if item in db.ids then db.ids[item] else map[]
  }

  function NonEmpty(ids: Ids): Ids
  {
    map p | p in ids && ids[p] != "" :: ids[p]
  }

  /** The ids already inserted while some are still left. */
  function Inserted(ids: Ids, left: set<string>): Ids
  {
    map p | p in ids && p !in left && ids[p] != "" :: ids[p]
  }

  // ---- the transitions ----

  function Ensured(db: Db, item: Item): Db
  {
    if item in db.identity then db else db.(identity := db.identity[item := FRESH])
  }

  /** Whether a pass may decide the item: it has a row, and no human did. */
  predicate Decidable(db: Db, item: Item)
  {
    item in db.identity && !db.identity[item].status.Manual?
  }

  function WithMatch(db: Db, item: Item, provider: string, confidence: string, via: string, ids: Ids): Db
  {
    if !Decidable(db, item) then db
    else
      Db(db.identity[item := Row(Matched, Some(provider), Some(confidence), Some(via), None)],
         db.ids[item := NonEmpty(ids)])
  }

  function WithDecline(db: Db, item: Item, reason: string): Db
  {
    if !Decidable(db, item) then db
    else db.(identity := db.identity[item := Row(Unmatched, None, None, None, Some(reason))])
  }

  /** A correction is refused when it names no id, an empty one, or an item with no row. */
  predicate Acceptable(db: Db, item: Item, ids: Ids)
  {
    ids != map[] && item in db.identity && forall p :: p in ids ==> p != "" && ids[p] != ""
  }

  /** What the repository writes for a correction: the ids are replaced even where there is no row. */
  function ManualWritten(db: Db, item: Item, ids: Ids): Db
  {
    Db(if item in db.identity then db.identity[item := FRESH.(status := Manual)] else db.identity,
       db.ids[item := NonEmpty(ids)])
  }

  function ResetWritten(db: Db, item: Item): Db
  {
    Db(if item in db.identity then db.identity[item := FRESH] else db.identity, db.ids[item := map[]])
  }

  function WithManual(db: Db, item: Item, ids: Ids): Db
  {
    if Acceptable(db, item, ids) then ManualWritten(db, item, ids) else db
  }

  function WithReset(db: Db, item: Item): Db
  {
    if item in db.identity then ResetWritten(db, item) else db
  }

  // ---- the repository ----

  /** What a pass concludes about one item, or that it is cancelled there or cannot write. */
  datatype Verdict =
    | Accept(confidence: string, via: string, ids: Ids)
    | Decline(reason: string)
    | Unanswered
    | RateLimited
    | Cut

  class IdentityRepository {
    var identity: map<Item, Row>
    var ids: map<Item, Ids>

    constructor ()
      ensures Value() == Db(map[], map[])
    {
      identity, ids := map[], map[];
    }

    ghost function Value(): Db
      reads this
    {
      Db(identity, ids)
    }

    /** Delete, then insert one by one. */
    method ReplaceExternalIds(item: Item, given: Ids)
      modifies this`ids
      ensures ids == old(ids)[item := NonEmpty(given)]
    {
      ids := ids[item := map[]];
      var left := given.Keys;
      while left != {}
        invariant left <= given.Keys
        invariant ids == old(ids)[item := Inserted(given, left)]
        decreases |left|
      {
        var p :| p in left;
        assert Inserted(given, left - {p}) ==
               if given[p] == "" then Inserted(given, left) else Inserted(given, left)[p := given[p]];
        left := left - {p};
        if given[p] == "" {
          continue;
        }
        ids := ids[item := ids[item][p := given[p]]];
      }
      assert Inserted(given, {}) == NonEmpty(given);
    }

    method Ensure(item: Item)
      modifies this
      ensures Value() == Ensured(old(Value()), item)
    {
      if item !in identity {
        identity := identity[item := FRESH];
      }
    }

    method RecordMatch(item: Item, provider: string, confidence: string, via: string, given: Ids)
      modifies this
      ensures Value() == WithMatch(old(Value()), item, provider, confidence, via, given)
    {
      if item !in identity || identity[item].status.Manual? {
        return;
      }
      identity := identity[item := Row(Matched, Some(provider), Some(confidence), Some(via), None)];
      ReplaceExternalIds(item, given);
    }

    method RecordUnmatched(item: Item, reason: string)
      modifies this
      ensures Value() == WithDecline(old(Value()), item, reason)
    {
      if item in identity && !identity[item].status.Manual? {
        identity := identity[item := Row(Unmatched, None, None, None, Some(reason))];
      }
    }

    method SetManual(item: Item, given: Ids)
      modifies this
      ensures Value() == ManualWritten(old(Value()), item, given)
    {
      if item in identity {
        identity := identity[item := FRESH.(status := Manual)];
      }
      ReplaceExternalIds(item, given);
    }

    method Reset(item: Item)
      modifies this
      ensures Value() == ResetWritten(old(Value()), item)
    {
      if item in identity {
        identity := identity[item := FRESH];
      }
      ReplaceExternalIds(item, map[]);
      assert NonEmpty(map[]) == map[];
    }

    /** One pass over its batch: a provider failure skips the item, rate limiting or being cut ends the pass. */
    method Identify(provider: string, batch: seq<Item>, verdicts: Item -> Verdict) returns (matched: nat,
                    unmatched: nat, ok: bool)
      modifies this
      ensures Value() == Passed(old(Value()), provider, batch, verdicts, Reach(batch, verdicts))
      ensures ok <==> Reach(batch, verdicts) == |batch|
      ensures matched == AcceptedIn(batch, verdicts, Reach(batch, verdicts))
      ensures unmatched == RefusedIn(batch, verdicts, Reach(batch, verdicts))
    {
      matched, unmatched := 0, 0;
      for i := 0 to |batch|
        invariant i <= Reach(batch, verdicts)
        invariant Value() == Passed(old(Value()), provider, batch, verdicts, i)
        invariant matched == AcceptedIn(batch, verdicts, i) && unmatched == RefusedIn(batch, verdicts, i)
      {
        ReachNext(batch, verdicts, i);
        match verdicts(batch[i]) {
          case RateLimited => return matched, unmatched, false;
          case Cut => return matched, unmatched, false;
          case Unanswered =>
          case Accept(confidence, via, given) =>
            RecordMatch(batch[i], provider, confidence, via, given);
            matched := matched + 1;
          case Decline(reason) =>
            RecordUnmatched(batch[i], reason);
            unmatched := unmatched + 1;
        }
      }
      ok := true;
    }
  }

  datatype Reply = Accepted | InvalidArgument | NotFound

  class IdentityService {
    const repo: IdentityRepository

    constructor (repo: IdentityRepository)
      ensures this.repo == repo
    {
      this.repo := repo;
    }

    /** A correction must name at least one id, none of them empty, and an item with a row. */
    method SetManual(item: Item, given: Ids) returns (r: Reply)
      modifies repo
      ensures r.Accepted? <==> Acceptable(old(repo.Value()), item, given)
      ensures r.NotFound? ==> item !in old(repo.identity)
      ensures r.InvalidArgument? <==> given == map[] || exists p :: p in given && (p == "" || given[p] == "")
      ensures repo.Value() == WithManual(old(repo.Value()), item, given)
    {
      if given == map[] {
        return InvalidArgument;
      }
      var left := given.Keys;
      while left != {}
        invariant left <= given.Keys
        invariant repo.Value() == old(repo.Value())
        invariant forall p :: p in given && p !in left ==> p != "" && given[p] != ""
        decreases |left|
      {
        var p :| p in left;
        left := left - {p};
        if p == "" || given[p] == "" {
          return InvalidArgument;
        }
      }
      if item !in repo.identity {
        return NotFound;
      }
      repo.SetManual(item, given);
      r := Accepted;
    }

    method Reset(item: Item) returns (r: Reply)
      modifies repo
      ensures r == if item in old(repo.identity) then Accepted else NotFound
      ensures repo.Value() == WithReset(old(repo.Value()), item)
    {
      if item !in repo.identity {
        return NotFound;
      }
      repo.Reset(item);
      r := Accepted;
    }
  }

  /** What ends a pass. */
  predicate Ends(v: Verdict)
  {
    v.RateLimited? || v.Cut?
  }

  /** How far a pass gets before something ends it. */
  function Reach(batch: seq<Item>, verdicts: Item -> Verdict): (n: nat)
    ensures n <= |batch|
  {
    if batch == [] || Ends(verdicts(batch[0])) then 0 else 1 + Reach(batch[1..], verdicts)
  }

  lemma {:induction false} ReachNext(batch: seq<Item>, verdicts: Item -> Verdict, i: nat)
    requires i < |batch| && i <= Reach(batch, verdicts)
    ensures Reach(batch, verdicts) == i <==> Ends(verdicts(batch[i]))
  {
    if i > 0 {
      ReachNext(batch[1..], verdicts, i - 1);
    }
  }

  /** How many of the first n items were accepted, and how many declined. */
  function AcceptedIn(batch: seq<Item>, verdicts: Item -> Verdict, n: nat): nat
    requires n <= |batch|
  {
    if n == 0 then 0 else AcceptedIn(batch, verdicts, n - 1) + (if verdicts(batch[n - 1]).Accept? then 1 else 0)
  }

  function RefusedIn(batch: seq<Item>, verdicts: Item -> Verdict, n: nat): nat
    requires n <= |batch|
  {
    if n == 0 then 0 else RefusedIn(batch, verdicts, n - 1) + (if verdicts(batch[n - 1]).Decline? then 1 else 0)
  }

  function Decided(db: Db, provider: string, item: Item, v: Verdict): Db
  {
    match v
    case Accept(confidence, via, ids) => WithMatch(db, item, provider, confidence, via, ids)
    case Decline(reason) => WithDecline(db, item, reason)
    case _ => db
  }

  function Passed(db: Db, provider: string, batch: seq<Item>, verdicts: Item -> Verdict, n: nat): Db
    requires n <= |batch|
  {
    if n == 0 then db
    else Decided(Passed(db, provider, batch, verdicts, n - 1), provider, batch[n - 1], verdicts(batch[n - 1]))
  }

  // ---- passes and people, interleaved ----

  /** The tables, and for each library with a pass under way the items it has still to decide. */
  datatype World = World(db: Db, passes: map<Library, seq<Item>>)

  datatype Step =
    | EnsureItem(item: Item)
    | Correct(item: Item, ids: Ids)
    | ResetItem(item: Item)
    | StartPass(library: Library, batch: seq<Item>)
    | PassDecides(library: Library, provider: string, verdict: Verdict)
    | EndPass(library: Library)

  /** A pass starts only when its library has none, over distinct pending items of that library. */
  ghost predicate Enabled(home: Item -> Library, w: World, s: Step)
  {
    match s
    case StartPass(library, batch) =>
      && library !in w.passes
      && (forall i, j :: 0 <= i < j < |batch| ==> batch[i] != batch[j])
      && (forall item :: item in batch ==>
            home(item) == library && item in w.db.identity && w.db.identity[item].status.Pending?)
    case PassDecides(library, _, _) => library in w.passes && w.passes[library] != []
    case EndPass(library) => library in w.passes
    case _ => true
  }

  ghost function Next(w: World, s: Step): World
  {
    match s
    case EnsureItem(item) => w.(db := Ensured(w.db, item))
    case Correct(item, ids) => w.(db := WithManual(w.db, item, ids))
    case ResetItem(item) => w.(db := WithReset(w.db, item))
    case StartPass(library, batch) => w.(passes := w.passes[library := batch])
    case PassDecides(library, provider, verdict) =>
      if library in w.passes && w.passes[library] != [] then
        World(Decided(w.db, provider, w.passes[library][0], verdict), w.passes[library := w.passes[library][1..]])
      else w
    case EndPass(library) => w.(passes := w.passes - {library})
  }

  ghost predicate RowSound(row: Row, ids: Ids)
  {
    && (row.status.Matched? <==> row.provider.Some?)
    && (row.status.Matched? <==> row.confidence.Some?)
    && (row.status.Matched? <==> row.via.Some?)
    && (row.status.Unmatched? <==> row.reason.Some?)
    && (row.status.Pending? || row.status.Unmatched? ==> ids == map[])
    && (forall p :: p in ids ==> ids[p] != "")
  }

  /** A pass still to decide an item means nothing else has: it is pending, or a human stepped in. */
  ghost predicate BatchSound(home: Item -> Library, db: Db, library: Library, batch: seq<Item>)
  {
    && (forall i, j :: 0 <= i < j < |batch| ==> batch[i] != batch[j])
    && (forall item :: item in batch ==>
          home(item) == library && item in db.identity &&
          (db.identity[item].status.Pending? || db.identity[item].status.Manual?))
  }

  ghost predicate Sound(home: Item -> Library, w: World)
  {
    && (forall item :: item in w.db.identity ==> RowSound(w.db.identity[item], IdsOf(w.db, item)))
    && (forall item :: item !in w.db.identity ==> IdsOf(w.db, item) == map[])
    && (forall library :: library in w.passes ==> BatchSound(home, w.db, library, w.passes[library]))
  }

  /** The part of a step that touches one item's rows. */
  ghost predicate Touches(w: World, s: Step, item: Item)
  {
    match s
    case EnsureItem(i) => i == item
    case Correct(i, _) => i == item
    case ResetItem(i) => i == item
    case PassDecides(library, _, _) => library in w.passes && w.passes[library] != [] && w.passes[library][0] == item
    case _ => false
  }

  lemma UntouchedUnchanged(w: World, s: Step, item: Item)
    requires !Touches(w, s, item)
    ensures var w' := Next(w, s);
      && (item in w'.db.identity <==> item in w.db.identity)
      && (item in w.db.identity ==> w'.db.identity[item] == w.db.identity[item])
      && IdsOf(w'.db, item) == IdsOf(w.db, item)
  {
  }

  lemma StepKeepsRows(home: Item -> Library, w: World, s: Step, item: Item)
    requires Sound(home, w) && Enabled(home, w, s)
    ensures var db := Next(w, s).db;
      if item in db.identity then RowSound(db.identity[item], IdsOf(db, item)) else IdsOf(db, item) == map[]
  {
    if !Touches(w, s, item) {
      UntouchedUnchanged(w, s, item);
    } else {
      assert item in w.db.identity ==> RowSound(w.db.identity[item], IdsOf(w.db, item));
      if s.PassDecides? {
        assert BatchSound(home, w.db, s.library, w.passes[s.library]);
        assert w.passes[s.library][0] in w.passes[s.library];
      }
    }
  }

  lemma StepKeepsBatches(home: Item -> Library, w: World, s: Step, library: Library)
    requires Sound(home, w) && Enabled(home, w, s) && library in Next(w, s).passes
    ensures BatchSound(home, Next(w, s).db, library, Next(w, s).passes[library])
  {
    var w' := Next(w, s);
    if library in w.passes && !(s.StartPass? && s.library == library) {
      assert BatchSound(home, w.db, library, w.passes[library]);
      var batch, batch' := w.passes[library], w'.passes[library];
      assert batch' == batch || (batch != [] && batch' == batch[1..] && s.PassDecides? && s.library == library);
      forall item | item in batch'
        ensures home(item) == library && item in w'.db.identity &&
          (w'.db.identity[item].status.Pending? || w'.db.identity[item].status.Manual?)
      {
        assert item in batch;
        if s.PassDecides? && s.library in w.passes && w.passes[s.library] != [] {
          OtherItemAhead(home, w, s.library, library, item);
        }
        if !Touches(w, s, item) {
          UntouchedUnchanged(w, s, item);
        }
      }
    }
  }

  /** What a pass decides is not still waiting in any pass afterwards. */
  lemma OtherItemAhead(home: Item -> Library, w: World, deciding: Library, library: Library, item: Item)
    requires Sound(home, w) && deciding in w.passes && w.passes[deciding] != [] && library in w.passes
    requires item in if library == deciding then w.passes[library][1..] else w.passes[library]
    ensures item != w.passes[deciding][0]
  {
    assert BatchSound(home, w.db, deciding, w.passes[deciding]) && BatchSound(home, w.db, library, w.passes[library]);
    assert w.passes[deciding][0] in w.passes[deciding];
    if library == deciding {
      var k :| 0 <= k < |w.passes[library][1..]| && w.passes[library][1..][k] == item;
      assert w.passes[library][k + 1] == item;
    }
  }

  lemma StepKeepsSound(home: Item -> Library, w: World, s: Step)
    requires Sound(home, w) && Enabled(home, w, s)
    ensures Sound(home, Next(w, s))
  {
    hide RowSound, BatchSound, Enabled, Next;
    forall item
      ensures var db := Next(w, s).db;
        if item in db.identity then RowSound(db.identity[item], IdsOf(db, item)) else IdsOf(db, item) == map[]
    {
      StepKeepsRows(home, w, s, item);
    }
    forall library | library in Next(w, s).passes
      ensures BatchSound(home, Next(w, s).db, library, Next(w, s).passes[library])
    {
      StepKeepsBatches(home, w, s, library);
    }
  }

  ghost predicate Possible(home: Item -> Library, w: World, steps: seq<Step>)
    decreases |steps|
  {
    steps == [] || (Enabled(home, w, steps[0]) && Possible(home, Next(w, steps[0]), steps[1..]))
  }

  ghost function After(w: World, steps: seq<Step>): World
    decreases |steps|
  {
    if steps == [] then w else After(Next(w, steps[0]), steps[1..])
  }

  const EMPTY := World(Db(map[], map[]), map[])

  /** In every reachable state the columns agree with the status, and undecided items carry no ids. */
  lemma {:induction false} RunsKeepSound(home: Item -> Library, w: World, steps: seq<Step>)
    requires Sound(home, w) && Possible(home, w, steps)
    ensures Sound(home, After(w, steps))
    decreases |steps|
  {
    hide Sound, Enabled, Next;
    if steps != [] {
      StepKeepsSound(home, w, steps[0]);
      RunsKeepSound(home, Next(w, steps[0]), steps[1..]);
    }
  }

  lemma ReachableIsSound(home: Item -> Library, steps: seq<Step>)
    requires Possible(home, EMPTY, steps)
    ensures Sound(home, After(EMPTY, steps))
  {
    RunsKeepSound(home, EMPTY, steps);
  }

  /** Neither a new correction that is accepted nor a reset of this item. */
  ghost predicate LeavesDecision(db: Db, s: Step, item: Item)
  {
    match s
    case Correct(i, ids) => i != item || !Acceptable(db, i, ids)
    case ResetItem(i) => i != item
    case _ => true
  }

  ghost predicate NobodyReconsiders(w: World, steps: seq<Step>, item: Item)
    decreases |steps|
  {
    steps == [] || (LeavesDecision(w.db, steps[0], item) && NobodyReconsiders(Next(w, steps[0]), steps[1..], item))
  }

  lemma ManualStepSurvives(w: World, s: Step, item: Item)
    requires item in w.db.identity && w.db.identity[item].status.Manual? && LeavesDecision(w.db, s, item)
    ensures var db := Next(w, s).db;
      item in db.identity && db.identity[item] == w.db.identity[item] && IdsOf(db, item) == IdsOf(w.db, item)
  {
    if !Touches(w, s, item) {
      UntouchedUnchanged(w, s, item);
    }
  }

  /**
   A human's decision, and exactly the ids given with it, survive every step of every pass, a stale
   batch included, until somebody corrects or resets the item.
   */
  lemma {:induction false} ManualSurvives(w: World, steps: seq<Step>, item: Item)
    requires item in w.db.identity && w.db.identity[item].status.Manual?
    requires NobodyReconsiders(w, steps, item)
    ensures var db := After(w, steps).db;
      item in db.identity && db.identity[item].status.Manual? && IdsOf(db, item) == IdsOf(w.db, item)
    decreases |steps|
  {
    hide Next, LeavesDecision;
    if steps != [] {
      ManualStepSurvives(w, steps[0], item);
      ManualSurvives(Next(w, steps[0]), steps[1..], item);
    }
  }

  lemma CorrectionStands(w: World, steps: seq<Step>, item: Item, ids: Ids)
    requires Acceptable(w.db, item, ids)
    requires NobodyReconsiders(Next(w, Correct(item, ids)), steps, item)
    ensures var db := After(Next(w, Correct(item, ids)), steps).db;
      item in db.identity && db.identity[item].status.Manual? && IdsOf(db, item) == ids
  {
    ManualSurvives(Next(w, Correct(item, ids)), steps, item);
    assert NonEmpty(ids) == ids;
  }

  // ---- what a pass and a person write ----

  ghost predicate SameRows(a: Db, b: Db, item: Item)
  {
    && (item in b.identity <==> item in a.identity)
    && (item in a.identity ==> b.identity[item] == a.identity[item])
    && IdsOf(b, item) == IdsOf(a, item)
  }

  /** The ids that are not empty, and no others. */
  ghost predicate Given(ids: Ids, stored: Ids)
  {
    forall p :: (p in stored <==> p in ids && ids[p] != "") && (p in stored ==> stored[p] == ids[p])
  }

  /** What one verdict makes of an item: nothing without a row, or when a person has decided. */
  ghost predicate Judged(a: Db, b: Db, provider: string, item: Item, v: Verdict)
  {
    if item !in a.identity || a.identity[item].status == Manual then SameRows(a, b, item)
    else
      match v
      case Accept(confidence, via, ids) =>
        && item in b.identity
        && b.identity[item] == Row(Matched, Some(provider), Some(confidence), Some(via), None)
        && Given(ids, IdsOf(b, item))
      case Decline(reason) =>
        && item in b.identity && b.identity[item] == Row(Unmatched, None, None, None, Some(reason))
        && IdsOf(b, item) == IdsOf(a, item)
      case _ => SameRows(a, b, item)
  }

  lemma DecidedJudges(db: Db, provider: string, item: Item, v: Verdict)
    ensures Judged(db, Decided(db, provider, item, v), provider, item, v)
    ensures forall other :: other != item ==> SameRows(db, Decided(db, provider, item, v), other)
  {
  }

  lemma JudgedCarries(a: Db, b: Db, c: Db, provider: string, item: Item, v: Verdict)
    ensures SameRows(a, b, item) && Judged(b, c, provider, item, v) ==> Judged(a, c, provider, item, v)
    ensures Judged(a, b, provider, item, v) && SameRows(b, c, item) ==> Judged(a, c, provider, item, v)
  {
    hide Given;
  }

  /** A pass decides each item it gets to by its own verdict, and touches no other. */
  lemma {:induction false} PassJudges(db: Db, provider: string, batch: seq<Item>, verdicts: Item -> Verdict, n: nat)
    requires n <= |batch| && Lists.Distinct(batch)
    ensures var after := Passed(db, provider, batch, verdicts, n);
      && (forall i :: 0 <= i < n ==> Judged(db, after, provider, batch[i], verdicts(batch[i])))
      && (forall item :: item !in batch[..n] ==> SameRows(db, after, item))
  {
    hide Judged, SameRows, Decided;
    if n == 0 {
      Unjudged(db);
    } else {
      var before, item := Passed(db, provider, batch, verdicts, n - 1), batch[n - 1];
      var after := Passed(db, provider, batch, verdicts, n);
      PassJudges(db, provider, batch, verdicts, n - 1);
      DecidedJudges(before, provider, item, verdicts(item));
      assert batch[..n] == batch[..n - 1] + [item];
      JudgedCarries(db, before, after, provider, item, verdicts(item));
      forall i | 0 <= i < n - 1
        ensures Judged(db, after, provider, batch[i], verdicts(batch[i]))
      {
        JudgedCarries(db, before, after, provider, batch[i], verdicts(batch[i]));
      }
      forall other | other !in batch[..n]
        ensures SameRows(db, after, other)
      {
        SameRowsCarry(db, before, after, other);
      }
    }
  }

  lemma Unjudged(db: Db)
    ensures forall item :: SameRows(db, db, item)
  {
  }

  lemma SameRowsCarry(a: Db, b: Db, c: Db, item: Item)
    requires SameRows(a, b, item) && SameRows(b, c, item)
    ensures SameRows(a, c, item)
  {
  }

  /** A pass gets to the first item at which it is rate limited, cancelled or cannot write. */
  lemma {:induction false} ReachExactly(batch: seq<Item>, verdicts: Item -> Verdict)
    ensures var n := Reach(batch, verdicts);
      && (forall i :: 0 <= i < n ==> verdicts(batch[i]) != RateLimited && verdicts(batch[i]) != Cut)
      && (n < |batch| ==> verdicts(batch[n]) == RateLimited || verdicts(batch[n]) == Cut)
  {
    if batch != [] && !Ends(verdicts(batch[0])) {
      ReachExactly(batch[1..], verdicts);
    }
  }

  /** It counts the items accepted and declined on the way. */
  lemma {:induction false} CountsExactly(batch: seq<Item>, verdicts: Item -> Verdict, n: nat)
    requires n <= |batch|
    ensures AcceptedIn(batch, verdicts, n) == |Lists.Filter((item: Item) => verdicts(item).Accept?, batch[..n])|
    ensures RefusedIn(batch, verdicts, n) == |Lists.Filter((item: Item) => verdicts(item).Decline?, batch[..n])|
  {
    if n > 0 {
      CountsExactly(batch, verdicts, n - 1);
      Lists.FilterNext((item: Item) => verdicts(item).Accept?, batch, n - 1);
      Lists.FilterNext((item: Item) => verdicts(item).Decline?, batch, n - 1);
    }
  }

  /** A correction marks the row and leaves exactly its ids; a reset makes it pending and drops them. */
  lemma PersonWrites(db: Db, item: Item, ids: Ids)
    requires item in db.identity
    ensures Acceptable(db, item, ids) ==>
      var after := WithManual(db, item, ids);
      item in after.identity && after.identity[item] == Row(Manual, None, None, None, None) && IdsOf(after, item) == ids
    ensures var after := WithReset(db, item);
      item in after.identity && after.identity[item] == Row(Pending, None, None, None, None)
      && IdsOf(after, item) == map[]
    ensures forall other :: other != item ==>
      SameRows(db, WithManual(db, item, ids), other) && SameRows(db, WithReset(db, item), other)
  {
    if Acceptable(db, item, ids) {
      assert NonEmpty(ids) == ids;
    }
  }
}
