/**
 Ordinary refreshes one after another (internal/service/metadata.go, internal/repository/metadata.go):
 a pass takes two hundred items at most, and items that cannot be completed take their place in it again
 and again. What is completed in the end, in a library of any size.
 */
module RepeatedRefresh {
  import opened Text
  import opened ArtworkStore
  import opened MetadataRows
  import opened Refresh
  import opened RefreshFixpoint
  import Lists

  function Repeated(cfg: Config, library: nat, s: State, envs: seq<Env>): State
    decreases |envs|
  {
    if envs == [] then s else Repeated(cfg, library, Refreshed(cfg, library, false, envs[0], s).s, envs[1..])
  }

  /** Nothing stops the pass, early or later, and the provider answers in full for every item it has an id of. */
  ghost predicate AnswersKnown(cfg: Config, library: nat, env: Env)
  {
    Starts(env) && forall item :: Ours(cfg, library, item) ==>
      !env.stops(item) && (cfg.providerId(item) != "" ==> AnswersItem(cfg, env, item))
  }

  ghost predicate AllAnswer(cfg: Config, library: nat, envs: seq<Env>)
  {
    forall env :: env in envs ==> AnswersKnown(cfg, library, env)
  }

  /** Needing something no answer brings: no id to ask by, or an image field locked without a row. */
  ghost predicate Stuck(cfg: Config, s: State, item: Item)
  {
    Needs(s.db, item) && (cfg.providerId(item) == "" || LockedGap(s, item))
  }

  ghost predicate LockedGap(s: State, item: Item)
  {
    exists t :: t in IMAGE_TYPES && Key(item, t) !in s.db.images && Locked(s.db, CellOf(Key(item, t)))
  }

  // ---- one pass ----

  /** What a whole pass does to one item. */
  lemma ItemAfter(cfg: Config, library: nat, env: Env, batch: seq<Item>, s: State, t: State, item: Item)
    requires Grows(s, t) && PassAdds(cfg, env, batch, s, t, true) && OwnFiles(s) && OwnFiles(t)
    requires cfg.providerId(item) != "" ==> AnswersItem(cfg, env, item)
    ensures Stuck(cfg, t, item) <==> Stuck(cfg, s, item)
    ensures Needs(t.db, item) <==> Needs(s.db, item) && (Stuck(cfg, s, item) || item !in batch)
  {
    hide Needs, OwnFiles, AnswersItem, MayAdd, MayFetch, Locked, CellOf;
    NeedsExactly(s, item);
    NeedsExactly(t, item);
    GapStays(s, t, item);
    if cfg.providerId(item) == "" {
      NothingWithoutId(cfg, env, batch, s, t, item);
    } else {
      AnsweredItem(cfg, env, s, item);
      AnsweredRows(cfg, env, batch, s, t, item);
    }
  }

  lemma GapStays(s: State, t: State, item: Item)
    requires Grows(s, t)
    ensures LockedGap(t, item) ==> LockedGap(s, item)
  {
    hide Locked, CellOf;
  }

  lemma NothingWithoutId(cfg: Config, env: Env, batch: seq<Item>, s: State, t: State, item: Item)
    requires Grows(s, t) && PassAdds(cfg, env, batch, s, t, true) && cfg.providerId(item) == ""
    ensures item in t.db.fetched <==> item in s.db.fetched
    ensures forall i :: Key(item, i) in t.db.images <==> Key(item, i) in s.db.images
  {
    hide Addable, Locked, CellOf;
  }

  lemma AnsweredRows(cfg: Config, env: Env, batch: seq<Item>, s: State, t: State, item: Item)
    requires Grows(s, t) && PassAdds(cfg, env, batch, s, t, true) && MayFetch(cfg, env, item)
    requires forall i :: i in IMAGE_TYPES ==>
      (MayAdd(cfg, env, s, Key(item, i)) <==> !Locked(s.db, CellOf(Key(item, i))))
    ensures LockedGap(t, item) <==> LockedGap(s, item)
    ensures item !in batch ==>
      (item in t.db.fetched <==> item in s.db.fetched)
      && forall i :: i in IMAGE_TYPES ==> (Key(item, i) in t.db.images <==> Key(item, i) in s.db.images)
    ensures item in batch ==> item in t.db.fetched
    ensures item in batch ==> forall i :: i in IMAGE_TYPES ==>
      (Key(item, i) in t.db.images <==> Key(item, i) in s.db.images || !Locked(s.db, CellOf(Key(item, i))))
  {
    hide MayAdd, MayFetch, Locked, CellOf;
  }

  /** What one pass means for everybody. */
  ghost predicate Advances(cfg: Config, library: nat, s: State, t: State)
  {
    forall item :: Ours(cfg, library, item) ==>
      && (Stuck(cfg, t, item) <==> Stuck(cfg, s, item))
      && (Needs(t.db, item) <==>
            Needs(s.db, item) && (Stuck(cfg, s, item) || item !in Selected(cfg, library, false, s.db)))
  }

  /** One answered pass: those who cannot be completed stay as they are, the others selected are completed. */
  lemma OnePass(cfg: Config, library: nat, env: Env, s: State)
    requires Catalogued(cfg, s) && Orderly(cfg, library, s) && AnswersKnown(cfg, library, env)
    ensures var t := Refreshed(cfg, library, false, env, s);
      && !t.halted && Catalogued(cfg, t.s) && Orderly(cfg, library, t.s)
      && (TagsRight(cfg, s) ==> TagsRight(cfg, t.s))
      && Advances(cfg, library, s, t.s)
  {
    hide Selected, Prepared, Orderly, OwnFiles, TagsRight, Interrupts, MayFetch, MayAdd, AnswersItem, Needs, Ours,
      Passed, Locked, CellOf, Stuck, PassAdds;
    StartsWalk(cfg, library, false, env, s);
    PreparedUnchanged(cfg, library, s);
    OrderlyOwn(cfg, library, s);
    var batch := Selected(cfg, library, false, s.db);
    SelectedOurs(cfg, library, false, s.db);
    OursListed(cfg, library);
    PassStep(cfg, library, env, batch, s, |batch|);
    assert batch[..|batch|] == batch;
    var t := Refreshed(cfg, library, false, env, s);
    OrderlyOwn(cfg, library, t.s);
    forall item | Ours(cfg, library, item)
      ensures !Interrupts(cfg, env, item)
    {
      NoInterrupt(cfg, env, s, item);
    }
    forall item | Ours(cfg, library, item)
      ensures Stuck(cfg, t.s, item) <==> Stuck(cfg, s, item)
      ensures Needs(t.s.db, item) <==> Needs(s.db, item) && (Stuck(cfg, s, item) || item !in batch)
    {
      ItemAfter(cfg, library, env, batch, s, t.s, item);
    }
  }

  lemma NoInterrupt(cfg: Config, env: Env, s: State, item: Item)
    requires !env.stops(item) && (cfg.providerId(item) != "" ==> AnswersItem(cfg, env, item))
    ensures !Interrupts(cfg, env, item)
  {
    hide AnswersItem, MayFetch, MayAdd;
    if cfg.providerId(item) != "" {
      hide Interrupts;
      AnsweredItem(cfg, env, s, item);
    }
  }

  // ---- who is selected ----

  ghost function StuckIn(cfg: Config, library: nat, s: State): Item -> bool
  {
    (item: Item) => Eligible(cfg, library, item) && Stuck(cfg, s, item)
  }

  /** Those with something missing that can be completed. */
  ghost function OpenIn(cfg: Config, library: nat, s: State): Item -> bool
  {
    (item: Item) => Eligible(cfg, library, item) && Needs(s.db, item) && !Stuck(cfg, s, item)
  }

  /** How many items before a place in the order take part in every pass and are never completed. */
  ghost function StuckBefore(cfg: Config, library: nat, s: State, p: nat): nat
    requires p <= |cfg.order|
  {
    |Lists.Filter(StuckIn(cfg, library, s), cfg.order[..p])|
  }

  ghost function OpenBefore(cfg: Config, library: nat, s: State, p: nat): nat
    requires p <= |cfg.order|
  {
    |Lists.Filter(OpenIn(cfg, library, s), cfg.order[..p])|
  }

  /** The first place of an item in the order. */
  ghost predicate At(cfg: Config, item: Item, p: nat)
  {
    p < |cfg.order| && cfg.order[p] == item && item !in cfg.order[..p]
  }

  /** Selected exactly when fewer than a whole batch of wanted items come before. */
  lemma SelectedExactly(cfg: Config, library: nat, all: bool, db: Db, item: Item, p: nat)
    requires At(cfg, item, p) && Wanted(cfg, library, all, db)(item)
    ensures var ahead := Lists.Filter(Wanted(cfg, library, all, db), cfg.order[..p]);
      && (item in Selected(cfg, library, all, db) <==> |ahead| < BATCH)
      && (|ahead| >= BATCH ==> Selected(cfg, library, all, db) == ahead[..BATCH])
  {
    hide Wanted, Lists.Filter;
    var wanted := Wanted(cfg, library, all, db);
    var ahead := Lists.Filter(wanted, cfg.order[..p]);
    var rest := Lists.Filter(wanted, cfg.order[p + 1..]);
    assert cfg.order == cfg.order[..p + 1] + cfg.order[p + 1..];
    Lists.FilterNext(wanted, cfg.order, p);
    Lists.FilterConcat(wanted, cfg.order[..p + 1], cfg.order[p + 1..]);
    var found := Lists.Filter(wanted, cfg.order);
    assert found == ahead + [item] + rest;
    Lists.FilterMembers(wanted, cfg.order[..p]);
    if |ahead| < BATCH {
      assert found[|ahead|] == item;
      assert |found| > BATCH ==> found[..BATCH][|ahead|] == item;
    } else {
      assert found[..BATCH] == ahead[..BATCH];
      assert forall i :: 0 <= i < |ahead| ==> ahead[i] in ahead;
    }
  }

  /** Whole batches of stuck items ahead leave no place. */
  lemma NeverSelected(cfg: Config, library: nat, s: State, item: Item, p: nat)
    requires At(cfg, item, p) && Wanted(cfg, library, false, s.db)(item) && StuckBefore(cfg, library, s, p) >= BATCH
    ensures item !in Selected(cfg, library, false, s.db)
  {
    hide Selected, Needs, Eligible, Lists.Filter;
    SelectedExactly(cfg, library, false, s.db, item, p);
    Lists.FilterWeaker(StuckIn(cfg, library, s), Wanted(cfg, library, false, s.db), cfg.order[..p]);
  }

  /** When an item has to wait and fewer stuck ones are ahead, some open item ahead of it is selected. */
  lemma OpenAheadSelected(cfg: Config, library: nat, s: State, item: Item, p: nat) returns (other: Item)
    requires At(cfg, item, p) && Wanted(cfg, library, false, s.db)(item)
    requires item !in Selected(cfg, library, false, s.db) && StuckBefore(cfg, library, s, p) < BATCH
    ensures other in cfg.order[..p] && OpenIn(cfg, library, s)(other) && other in Selected(cfg, library, false, s.db)
  {
    hide Selected, Needs, Eligible, Lists.Filter, LockedGap;
    var wanted, stuck := Wanted(cfg, library, false, s.db), StuckIn(cfg, library, s);
    var ahead := Lists.Filter(wanted, cfg.order[..p]);
    SelectedExactly(cfg, library, false, s.db, item, p);
    Lists.FilterMembers(wanted, cfg.order[..p]);
    var batch := ahead[..BATCH];
    if forall x :: x in batch ==> stuck(x) {
      Lists.FilterTwice(stuck, wanted, cfg.order[..p]);
      assert ahead == batch + ahead[BATCH..];
      Lists.FilterConcat(stuck, batch, ahead[BATCH..]);
      Lists.FilterAll(stuck, batch);
      assert false;
    }
    other :| other in batch && !stuck(other);
    assert other in ahead;
  }

  // ---- pass after pass ----

  lemma SameStuck(cfg: Config, library: nat, s: State, t: State, p: nat)
    requires Advances(cfg, library, s, t) && p <= |cfg.order|
    ensures StuckBefore(cfg, library, t, p) == StuckBefore(cfg, library, s, p)
  {
    hide Stuck, Needs, Eligible, Selected, Lists.Filter;
    var before := cfg.order[..p];
    forall i | 0 <= i < |before|
      ensures StuckIn(cfg, library, s)(before[i]) <==> StuckIn(cfg, library, t)(before[i])
    {
      assert before[i] in cfg.order;
    }
    Lists.FilterWeaker(StuckIn(cfg, library, s), StuckIn(cfg, library, t), before);
    Lists.FilterWeaker(StuckIn(cfg, library, t), StuckIn(cfg, library, s), before);
  }

  /** While an item waits its turn comes nearer. */
  lemma FewerOpen(cfg: Config, library: nat, s: State, t: State, item: Item, p: nat)
    requires Advances(cfg, library, s, t) && At(cfg, item, p) && Wanted(cfg, library, false, s.db)(item)
    requires item !in Selected(cfg, library, false, s.db) && StuckBefore(cfg, library, s, p) < BATCH
    ensures OpenBefore(cfg, library, t, p) < OpenBefore(cfg, library, s, p)
  {
    var other := OpenAheadSelected(cfg, library, s, item, p);
    hide Stuck, Needs, Eligible, Selected, Lists.Filter, StuckBefore;
    var before := cfg.order[..p];
    forall x | x in before && OpenIn(cfg, library, t)(x)
      ensures OpenIn(cfg, library, s)(x)
    {
      assert Ours(cfg, library, x);
    }
    assert Ours(cfg, library, other);
    Lists.FilterStrictlyWeaker(OpenIn(cfg, library, t), OpenIn(cfg, library, s), before, other);
  }

  ghost predicate Ready(cfg: Config, library: nat, s: State)
  {
    Catalogued(cfg, s) && Orderly(cfg, library, s)
  }

  lemma {:induction false} StaysReady(cfg: Config, library: nat, s: State, envs: seq<Env>)
    requires Ready(cfg, library, s) && AllAnswer(cfg, library, envs)
    ensures var t := Repeated(cfg, library, s, envs);
      Ready(cfg, library, t) && (TagsRight(cfg, s) ==> TagsRight(cfg, t))
    decreases |envs|
  {
    hide Refreshed, Catalogued, Orderly, AnswersKnown, TagsRight, Stuck, Selected, Ours;
    if envs != [] {
      OnePass(cfg, library, envs[0], s);
      StaysReady(cfg, library, Refreshed(cfg, library, false, envs[0], s).s, envs[1..]);
    }
  }

  lemma PassAdvances(cfg: Config, library: nat, env: Env, s: State)
    requires Ready(cfg, library, s) && AnswersKnown(cfg, library, env)
    ensures var t := Refreshed(cfg, library, false, env, s).s;
      Ready(cfg, library, t) && Advances(cfg, library, s, t)
  {
    hide Refreshed, Catalogued, Orderly, AnswersKnown, TagsRight, Stuck, Selected, Ours;
    OnePass(cfg, library, env, s);
  }

  lemma AllAnswerRest(cfg: Config, library: nat, envs: seq<Env>)
    requires AllAnswer(cfg, library, envs) && envs != []
    ensures AnswersKnown(cfg, library, envs[0]) && AllAnswer(cfg, library, envs[1..])
  {
    hide AnswersKnown;
  }

  /** Stuck items, and those with nothing missing, stay what they are. */
  lemma {:induction false} NothingChanges(cfg: Config, library: nat, s: State, envs: seq<Env>, item: Item)
    requires Ready(cfg, library, s) && AllAnswer(cfg, library, envs) && Ours(cfg, library, item)
    ensures var t := Repeated(cfg, library, s, envs);
      && (Stuck(cfg, t, item) <==> Stuck(cfg, s, item))
      && (!Needs(s.db, item) ==> !Needs(t.db, item))
    decreases |envs|
  {
    hide Refreshed, Ready, Stuck, Needs, Ours, Selected, AllAnswer;
    if envs != [] {
      AllAnswerRest(cfg, library, envs);
      PassAdvances(cfg, library, envs[0], s);
      NothingChanges(cfg, library, Refreshed(cfg, library, false, envs[0], s).s, envs[1..], item);
    }
  }

  /** Behind a whole batch of stuck items nothing is ever completed. */
  lemma {:induction false} Starves(cfg: Config, library: nat, s: State, envs: seq<Env>, item: Item, p: nat)
    requires Ready(cfg, library, s) && AllAnswer(cfg, library, envs) && Ours(cfg, library, item) && At(cfg, item, p)
    requires Needs(s.db, item) && StuckBefore(cfg, library, s, p) >= BATCH
    ensures Needs(Repeated(cfg, library, s, envs).db, item)
    decreases |envs|
  {
    hide Refreshed, Ready, Stuck, Needs, At, StuckBefore, Selected, AllAnswer;
    if envs != [] {
      var t := Refreshed(cfg, library, false, envs[0], s).s;
      AllAnswerRest(cfg, library, envs);
      PassAdvances(cfg, library, envs[0], s);
      AtBounds(cfg, item, p);
      NeverSelected(cfg, library, s, item, p);
      SameStuck(cfg, library, s, t, p);
      Starves(cfg, library, t, envs[1..], item, p);
    }
  }

  lemma AtBounds(cfg: Config, item: Item, p: nat)
    requires At(cfg, item, p)
    ensures p < |cfg.order|
  {
  }

  /** Otherwise an open item is completed, at the latest one pass after as many as open ones were ahead. */
  lemma {:induction false} Completes(cfg: Config, library: nat, s: State, envs: seq<Env>, item: Item, p: nat)
    requires Ready(cfg, library, s) && AllAnswer(cfg, library, envs) && Ours(cfg, library, item) && At(cfg, item, p)
    requires p < |cfg.order| && !Stuck(cfg, s, item) && StuckBefore(cfg, library, s, p) < BATCH
    requires OpenBefore(cfg, library, s, p) < |envs|
    ensures !Needs(Repeated(cfg, library, s, envs).db, item)
    decreases |envs|
  {
    hide Refreshed, Ready, Stuck, Needs, At, StuckBefore, OpenBefore, Selected, AllAnswer;
    var t := Refreshed(cfg, library, false, envs[0], s).s;
    AllAnswerRest(cfg, library, envs);
    PassAdvances(cfg, library, envs[0], s);
    if !Needs(t.db, item) {
      NothingChanges(cfg, library, t, envs[1..], item);
    } else {
      FewerOpen(cfg, library, s, t, item, p);
      SameStuck(cfg, library, s, t, p);
      Completes(cfg, library, t, envs[1..], item, p);
    }
  }

  lemma OpenBounded(cfg: Config, library: nat, s: State, p: nat)
    requires p <= |cfg.order|
    ensures OpenBefore(cfg, library, s, p) <= p
  {
    hide Lists.Filter;
    Lists.FilterSize(OpenIn(cfg, library, s), cfg.order[..p]);
  }

  lemma PreparedAgain(cfg: Config, library: nat, s: State, envs: seq<Env>)
    requires OwnFiles(s) && envs != [] && AllAnswer(cfg, library, envs)
    ensures Repeated(cfg, library, s, envs) == Repeated(cfg, library, Prepared(cfg, library, s), envs)
  {
    hide Prepared, Orderly, Selected, Passed, OwnFiles, AnswersItem, Ours, EndsEarly, Begun;
    assert AnswersKnown(cfg, library, envs[0]);
    StartsWalk(cfg, library, false, envs[0], s);
    StartsWalk(cfg, library, false, envs[0], Prepared(cfg, library, s));
    PreparedOrderly(cfg, library, s);
    PreparedUnchanged(cfg, library, Prepared(cfg, library, s));
  }

  lemma PreparedReady(cfg: Config, library: nat, s: State)
    requires Catalogued(cfg, s) && OwnFiles(s)
    ensures Ready(cfg, library, Prepared(cfg, library, s))
    ensures TagsRight(cfg, s) ==> TagsRight(cfg, Prepared(cfg, library, s))
  {
    hide Prepared, Orderly, OwnFiles, TagsRight;
    PreparedOrderly(cfg, library, s);
  }

  /**
   As many answered passes as the order has items, from any state of a library of any size: an item
   has something missing exactly when it had once the rows of lost files were cleared, and either no
   answer brings it or a whole batch of such items comes before it in order of creation.
   */
  lemma RepeatedPassesExactly(cfg: Config, library: nat, s: State, envs: seq<Env>, item: Item, p: nat)
    requires Catalogued(cfg, s) && OwnFiles(s) && AllAnswer(cfg, library, envs) && |envs| >= |cfg.order|
    requires Ours(cfg, library, item) && At(cfg, item, p) && p < |cfg.order|
    ensures var r, t := Prepared(cfg, library, s), Repeated(cfg, library, s, envs);
      Needs(t.db, item) <==>
      Needs(r.db, item) && (Stuck(cfg, r, item) || StuckBefore(cfg, library, r, p) >= BATCH)
  {
    hide Catalogued, OwnFiles, Ready, LockedGap, Needs, At, StuckBefore, OpenBefore, AllAnswer, Ours, Prepared,
      Repeated;
    var r := Prepared(cfg, library, s);
    PreparedReady(cfg, library, s);
    PreparedAgain(cfg, library, s, envs);
    NothingChanges(cfg, library, r, envs, item);
    if Needs(r.db, item) && !Stuck(cfg, r, item) {
      if StuckBefore(cfg, library, r, p) >= BATCH {
        Starves(cfg, library, r, envs, item, p);
      } else {
        OpenBounded(cfg, library, r, p);
        Completes(cfg, library, r, envs, item, p);
      }
    }
  }

  /**
   So such passes complete a library of any size exactly when none of its items is stuck; then one more
   pass selects and changes nothing.
   */
  lemma RepeatedPassesComplete(cfg: Config, library: nat, s: State, envs: seq<Env>, again: Env)
    requires Catalogued(cfg, s) && OwnFiles(s) && AllAnswer(cfg, library, envs) && |envs| >= |cfg.order| > 0
    ensures var r, t := Prepared(cfg, library, s), Repeated(cfg, library, s, envs);
      && Orderly(cfg, library, t) && (TagsRight(cfg, s) ==> TagsRight(cfg, t))
      && (Complete(cfg, library, t) <==> forall item :: Ours(cfg, library, item) ==> !Stuck(cfg, r, item))
      && (Complete(cfg, library, t) ==>
            Refreshed(cfg, library, false, again, t) == Tally(t, 0, 0, 0, !again.lists || !again.selects))
  {
    hide Catalogued, OwnFiles, Orderly, TagsRight, Stuck, Needs, AllAnswer, Prepared, Refreshed, Repeated, Ours;
    var r, t := Prepared(cfg, library, s), Repeated(cfg, library, s, envs);
    PreparedReady(cfg, library, s);
    PreparedAgain(cfg, library, s, envs);
    StaysReady(cfg, library, r, envs);
    OrderlyOwn(cfg, library, t);
    CompleteSelectsNothing(cfg, library, again, t);
    forall item | Ours(cfg, library, item)
      ensures Needs(t.db, item) ==> exists other :: Ours(cfg, library, other) && Stuck(cfg, r, other)
      ensures Stuck(cfg, r, item) ==> Needs(t.db, item)
      ensures Needs(t.db, item) <==>
        item !in t.db.fetched || exists i :: i in IMAGE_TYPES && Key(item, i) !in t.db.images
    {
      NeedsExactly(t, item);
      StuckNeeds(cfg, r, item);
      var p := FirstPlace(cfg, library, item);
      RepeatedPassesExactly(cfg, library, s, envs, item, p);
      if Needs(t.db, item) && !Stuck(cfg, r, item) {
        var other := SomeStuck(cfg, library, r, p);
      }
    }
  }

  lemma StuckNeeds(cfg: Config, s: State, item: Item)
    ensures Stuck(cfg, s, item) ==> Needs(s.db, item)
  {
  }

  lemma FirstPlace(cfg: Config, library: nat, item: Item) returns (p: nat)
    requires Ours(cfg, library, item)
    ensures At(cfg, item, p) && p < |cfg.order|
  {
    p := Lists.FirstIndex(cfg.order, item);
  }

  lemma SomeStuck(cfg: Config, library: nat, s: State, p: nat) returns (other: Item)
    requires p <= |cfg.order| && StuckBefore(cfg, library, s, p) > 0
    ensures Ours(cfg, library, other) && Stuck(cfg, s, other)
  {
    hide Lists.Filter, Stuck, Eligible;
    var stuck := StuckIn(cfg, library, s);
    Lists.FilterMembers(stuck, cfg.order[..p]);
    other := Lists.Filter(stuck, cfg.order[..p])[0];
    assert other in Lists.Filter(stuck, cfg.order[..p]);
  }

  // ---- who takes part, in terms of the tables ----

  /** Identified, of this library, and short of something, or any such item in a full refresh. */
  ghost predicate TakesPart(cfg: Config, library: nat, all: bool, s: State, item: Item)
  {
    && cfg.identified(item) && cfg.library(item) == library
    && (all || item !in s.db.fetched || Key(item, "primary") !in s.db.images || Key(item, "backdrop") !in s.db.images
        || Key(item, "logo") !in s.db.images)
  }

  /** The first two hundred of them, in the order of creation. */
  lemma SelectedFirst(cfg: Config, library: nat, all: bool, s: State, item: Item, p: nat)
    requires OwnFiles(s) && At(cfg, item, p)
    ensures var takes := (i: Item) => TakesPart(cfg, library, all, s, i);
      item in Selected(cfg, library, all, s.db) <==>
        takes(item) && |Lists.Filter(takes, cfg.order[..p])| < 200
  {
    hide Needs, Lists.Filter, OwnFiles, TakesPart;
    var takes := (i: Item) => TakesPart(cfg, library, all, s, i);
    var wanted := Wanted(cfg, library, all, s.db);
    forall i
      ensures wanted(i) <==> takes(i)
    {
      WantedTakesPart(cfg, library, all, s, i);
    }
    Lists.FilterSame(wanted, takes, cfg.order[..p]);
    if wanted(item) {
      SelectedExactly(cfg, library, all, s.db, item, p);
    } else {
      Lists.FilterMembers(wanted, cfg.order);
    }
  }

  lemma WantedTakesPart(cfg: Config, library: nat, all: bool, s: State, item: Item)
    requires OwnFiles(s)
    ensures Wanted(cfg, library, all, s.db)(item) <==> TakesPart(cfg, library, all, s, item)
  {
    hide Needs, OwnFiles;
    NeedsExactly(s, item);
    assert IMAGE_TYPES[0] == "primary" && IMAGE_TYPES[1] == "backdrop" && IMAGE_TYPES[2] == "logo";
  }

  /** Reconciling clears the rows of the library whose file is not there, and no others. */
  lemma ReconciledExactly(cfg: Config, library: nat, env: Env, s: State, key: Key)
    requires OwnFiles(s) && Starts(env)
    ensures var r := Begun(cfg, library, env, s);
      && (key in r.db.images <==>
            key in s.db.images
            && !(s.db.images[key].Held? && cfg.library(key.item) == library && s.db.images[key].path !in s.files))
      && (key in r.db.images ==> r.db.images[key] == s.db.images[key])
      && (forall p :: p in r.files <==> p in s.files && p.Final?)
      && (forall p :: p in r.files ==> r.files[p] == s.files[p])
  {
    StartsWalk(cfg, library, false, env, s);
    PreparedOrderly(cfg, library, s);
  }
}
