/**
 Corrections and resets statement by statement too (internal/service/identity.go,
 internal/repository/identity.go). They run over the pool like the passes: the row first, then the old
 ids are cleared, then new ones are inserted one by one, and anything may come between.
 */
module CorrectionStatements {
  import opened Text
  import opened Identity
  import Passes = IdentityStatements

  type Statement = Passes.Statement
  type Writing = Passes.Writing

  /** The tables with the passes under way, and the corrections and resets under way. */
  datatype State = State(tables: Passes.Tables, hands: map<nat, Writing>)

  datatype Act =
    | Other(move: Passes.Move)
    | CorrectRow(id: nat, item: Item, given: seq<(string, string)>)
    | ResetRow(id: nat, item: Item)
    | GoOn(id: nat)
    | GiveUp(id: nat)

  function Db(s: State): Identity.Db
  {
    s.tables.world.db
  }

  function Ids(s: State, item: Item): Identity.Ids
  {
    IdsOf(Db(s), item)
  }

  /** What a correction may name: some ids, none empty, no provider twice. */
  ghost predicate Proper(given: seq<(string, string)>)
  {
    && given != []
    && (forall i :: 0 <= i < |given| ==> given[i].0 != "" && given[i].1 != "")
    && (forall i, j :: 0 <= i < j < |given| ==> given[i].0 != given[j].0)
  }

  ghost predicate Enabled(home: Item -> Library, s: State, a: Act)
  {
    match a
    case Other(m) => Passes.Enabled(home, s.tables, m)
    case CorrectRow(id, item, given) => id !in s.hands && item in Db(s).identity && Proper(given)
    case ResetRow(id, item) => id !in s.hands && item in Db(s).identity
    case GoOn(id) => id in s.hands
    case GiveUp(id) => id in s.hands
  }

  ghost function WithRow(s: State, item: Item, row: Row): Passes.Tables
  {
    s.tables.(world := s.tables.world.(db := Db(s).(identity := Db(s).identity[item := row])))
  }

  ghost function Next(s: State, a: Act): State
  {
    match a
    case Other(m) => s.(tables := Passes.Next(s.tables, m))
    case CorrectRow(id, item, given) =>
      State(WithRow(s, item, FRESH.(status := Manual)),
            s.hands[id := Passes.Writing(item, [Passes.ClearIds] + Passes.Inserts(given))])
    case ResetRow(id, item) => State(WithRow(s, item, FRESH), s.hands[id := Passes.Writing(item, [Passes.ClearIds])])
    case GoOn(id) => if id in s.hands then WentOn(s, id) else s
    case GiveUp(id) => s.(hands := s.hands - {id})
  }

  /** The next statement, or none left; a statement that fails ends what it belongs to. */
  ghost function WentOn(s: State, id: nat): State
    requires id in s.hands
  {
    var w := s.hands[id];
    if w.todo == [] then s.(hands := s.hands - {id})
    else
      match Passes.Executed(Ids(s, w.item), w.todo[0])
      case None => s.(hands := s.hands - {id})
      case Some(ids) =>
        State(s.tables.(world := s.tables.world.(db := Db(s).(ids := Db(s).ids[w.item := ids]))),
              s.hands[id := w.(todo := w.todo[1..])])
  }

  // ---- one correction on its way ----

  /** What is left once the statements are executed, if none of them fails. */
  ghost function Finished(ids: Identity.Ids, todo: seq<Statement>): Option<Identity.Ids>
    decreases |todo|
  {
    if todo == [] then Some(ids)
    else
      match Passes.Executed(ids, todo[0])
      case None => None
      case Some(next) => Finished(next, todo[1..])
  }

  ghost predicate Under(s: State, id: nat, item: Item)
  {
    id in s.hands && s.hands[id].item == item
  }

  /**
   The item is marked as decided by hand. A correction still under way would end with exactly these ids if
   left alone; when it is through, the item has exactly these.
   */
  ghost predicate OnTrack(s: State, id: nat, item: Item, ids: Identity.Ids)
  {
    && item in Db(s).identity && Db(s).identity[item].status.Manual?
    && if Under(s, id, item) then Finished(Ids(s, item), s.hands[id].todo) == Some(ids) else Ids(s, item) == ids
  }

  ghost predicate OnlyInserts(todo: seq<Statement>)
  {
    forall i :: 0 <= i < |todo| ==> todo[i].InsertId?
  }

  /** Only the first statement can be the clearing one. */
  ghost predicate Shaped(s: State, id: nat, item: Item)
  {
    Under(s, id, item) && s.hands[id].todo != [] ==> OnlyInserts(s.hands[id].todo[1..])
  }

  /** The correction has still to clear the old ids. */
  ghost predicate Clearing(s: State, id: nat, item: Item)
  {
    Under(s, id, item) && s.hands[id].todo != [] && s.hands[id].todo[0].ClearIds?
  }

  /** What somebody else has left cannot get through: nothing, or, the ids once cleared, first one already there. */
  ghost predicate Idle(clearing: bool, ids: Identity.Ids, todo: seq<Statement>)
  {
    todo == [] || (!clearing && Passes.Harmless(ids, todo))
  }

  ghost predicate PassesIdle(s: State, id: nat, item: Item)
  {
    forall library :: library in s.tables.writing && s.tables.writing[library].item == item ==>
      Idle(Clearing(s, id, item), Ids(s, item), s.tables.writing[library].todo)
  }

  ghost predicate HandsIdle(s: State, id: nat, item: Item)
  {
    forall other :: other in s.hands && other != id && s.hands[other].item == item ==>
      Idle(Clearing(s, id, item), Ids(s, item), s.hands[other].todo)
  }

  /** No new correction or reset of the item begins, and the one under way is not cut off. */
  ghost predicate Leaves(s: State, a: Act, id: nat, item: Item)
  {
    match a
    case Other(m) => Passes.Leaves(m, item)
    case CorrectRow(_, i, _) => i != item
    case ResetRow(_, i) => i != item
    case GoOn(_) => true
    case GiveUp(i) => i == id ==> !Under(s, id, item) || s.hands[id].todo == []
  }

  ghost predicate IsRun(home: Item -> Library, s: State, acts: seq<Act>, id: nat, item: Item)
    decreases |acts|
  {
    acts == [] || (Enabled(home, s, acts[0]) && Leaves(s, acts[0], id, item)
                   && IsRun(home, Next(s, acts[0]), acts[1..], id, item))
  }

  ghost function After(s: State, acts: seq<Act>): State
    decreases |acts|
  {
    if acts == [] then s else After(Next(s, acts[0]), acts[1..])
  }

  ghost predicate Quiet(s: State, id: nat, item: Item, ids: Identity.Ids)
  {
    OnTrack(s, id, item, ids) && Shaped(s, id, item) && PassesIdle(s, id, item) && HandsIdle(s, id, item)
  }

  // ---- nobody gets through ----

  /** The statements a pass has left for a manual item only run out. */
  lemma PassesRunOut(home: Item -> Library, t: Passes.Tables, m: Passes.Move, item: Item)
    requires Passes.Enabled(home, t, m) && item in t.world.db.identity && t.world.db.identity[item].status.Manual?
    requires forall library :: library in t.writing && t.writing[library].item == item ==> t.writing[library].todo == []
    ensures var u := Passes.Next(t, m);
      forall library :: library in u.writing && u.writing[library].item == item ==> u.writing[library].todo == []
  {
  }

  lemma OtherKeeps(home: Item -> Library, s: State, m: Passes.Move, id: nat, item: Item, ids: Identity.Ids)
    requires Quiet(s, id, item, ids) && Passes.Enabled(home, s.tables, m) && Passes.Leaves(m, item)
    ensures Quiet(Next(s, Other(m)), id, item, ids)
  {
    hide Passes.Next, Passes.Enabled, Finished;
    Passes.MoveKeepsCorrection(home, s.tables, m, item, Ids(s, item));
    if Clearing(s, id, item) {
      PassesRunOut(home, s.tables, m, item);
    }
  }

  lemma OwnKeeps(s: State, id: nat, item: Item, ids: Identity.Ids)
    requires Quiet(s, id, item, ids) && Under(s, id, item)
    ensures Quiet(Next(s, GoOn(id)), id, item, ids)
  {
    var todo := s.hands[id].todo;
    if todo != [] {
      assert OnlyInserts(todo[1..]);
      assert todo[1..] != [] ==> OnlyInserts(todo[1..][1..]) && todo[1..][0].InsertId?;
    }
    hide OnlyInserts;
  }

  lemma HandKeeps(s: State, other: nat, id: nat, item: Item, ids: Identity.Ids)
    requires Quiet(s, id, item, ids) && other in s.hands && !(other == id && Under(s, id, item))
    ensures Quiet(Next(s, GoOn(other)), id, item, ids)
  {
    hide OnlyInserts, Finished;
  }

  lemma RowKeeps(s: State, a: Act, id: nat, item: Item, ids: Identity.Ids)
    requires Quiet(s, id, item, ids) && Leaves(s, a, id, item)
    requires (a.CorrectRow? && a.id !in s.hands) || (a.ResetRow? && a.id !in s.hands) || a.GiveUp?
    ensures Quiet(Next(s, a), id, item, ids)
  {
    hide OnlyInserts;
  }

  lemma ActKeeps(home: Item -> Library, s: State, a: Act, id: nat, item: Item, ids: Identity.Ids)
    requires Quiet(s, id, item, ids) && Enabled(home, s, a) && Leaves(s, a, id, item)
    ensures Quiet(Next(s, a), id, item, ids)
  {
    hide Quiet, Next;
    match a {
      case Other(m) => OtherKeeps(home, s, m, id, item, ids);
      case GoOn(other) =>
        if other == id && Under(s, id, item) {
          OwnKeeps(s, id, item, ids);
        } else {
          HandKeeps(s, other, id, item, ids);
        }
      case _ => RowKeeps(s, a, id, item, ids);
    }
  }

  lemma {:induction false} RunKeeps(home: Item -> Library, s: State, acts: seq<Act>, id: nat, item: Item,
                                    ids: Identity.Ids)
    requires Quiet(s, id, item, ids) && IsRun(home, s, acts, id, item)
    ensures OnTrack(After(s, acts), id, item, ids)
    decreases |acts|
  {
    hide Enabled, Next, Leaves;
    if acts != [] {
      hide Quiet;
      ActKeeps(home, s, acts[0], id, item, ids);
      RunKeeps(home, Next(s, acts[0]), acts[1..], id, item, ids);
    }
  }

  // ---- somebody does ----

  /** Whoever has statements to execute, but for one correction. */
  datatype Agent = APass(library: Library) | AHand(id: nat)

  ghost predicate Active(s: State, agent: Agent)
  {
    match agent
    case APass(library) => library in s.tables.writing
    case AHand(id) => id in s.hands
  }

  ghost function WritingOf(s: State, agent: Agent): Writing
    requires Active(s, agent)
  {
    match agent
    case APass(library) => s.tables.writing[library]
    case AHand(id) => s.hands[id]
  }

  function ActOf(agent: Agent): Act
  {
    match agent
    case APass(library) => Other(Passes.Proceed(library))
    case AHand(id) => GoOn(id)
  }

  /** What one agent's statements about an item leave alone: the other agents, and the ids of other items. */
  ghost predicate SameOthers(s: State, u: State, agent: Agent, item: Item)
  {
    && (forall other :: other != agent ==>
          && (Active(u, other) <==> Active(s, other))
          && (Active(s, other) ==> WritingOf(u, other) == WritingOf(s, other)))
    && forall i :: i != item ==> Ids(u, i) == Ids(s, i)
  }

  /** An agent's next statement, when it gets through. */
  lemma AgentExecutes(home: Item -> Library, s: State, agent: Agent, id: nat, item: Item)
    requires Active(s, agent) && WritingOf(s, agent).item == item && WritingOf(s, agent).todo != []
    requires Passes.Executed(Ids(s, item), WritingOf(s, agent).todo[0]).Some?
    ensures Enabled(home, s, ActOf(agent)) && Leaves(s, ActOf(agent), id, item)
    ensures var u := Next(s, ActOf(agent));
      && Ids(u, item) == Passes.Executed(Ids(s, item), WritingOf(s, agent).todo[0]).value
      && Db(u).identity == Db(s).identity
      && Active(u, agent) && WritingOf(u, agent) == Passes.Writing(item, WritingOf(s, agent).todo[1..])
      && SameOthers(s, u, agent, item)
  {
  }

  lemma {:induction false} InsertBreaks(m: Identity.Ids, rest: seq<Statement>, p: string, v: string,
                                        ids: Identity.Ids)
    requires OnlyInserts(rest) && p !in m && Finished(m, rest) == Some(ids)
    ensures Finished(m[p := v], rest) != Some(ids)
    decreases |rest|
  {
    if rest == [] {
      assert p in m[p := v];
    } else {
      var q, w := rest[0].provider, rest[0].value;
      if q != p {
        assert m[p := v][q := w] == m[q := w][p := v];
        InsertBreaks(m[q := w], rest[1..], p, v, ids);
      }
    }
  }

  /** Left alone the correction comes to its end. */
  lemma {:induction false} OwnFinishes(home: Item -> Library, s: State, id: nat, item: Item, ids: Identity.Ids)
    returns (acts: seq<Act>)
    requires Under(s, id, item) && Finished(Ids(s, item), s.hands[id].todo) == Some(ids)
    ensures IsRun(home, s, acts, id, item)
    ensures var u := After(s, acts);
      && Under(u, id, item) && u.hands[id].todo == [] && Ids(u, item) == ids && Db(u).identity == Db(s).identity
      && SameOthers(s, u, AHand(id), item)
    decreases |s.hands[id].todo|
  {
    if s.hands[id].todo == [] {
      acts := [];
    } else {
      AgentExecutes(home, s, AHand(id), id, item);
      assert WritingOf(s, AHand(id)) == s.hands[id];
      var u := Next(s, GoOn(id));
      assert WritingOf(u, AHand(id)) == u.hands[id];
      hide Next, Enabled;
      var rest := OwnFinishes(home, u, id, item, ids);
      acts := [GoOn(id)] + rest;
      assert acts[0] == GoOn(id) && acts[1..] == rest;
    }
  }

  lemma {:induction false} RunThen(home: Item -> Library, s: State, acts: seq<Act>, a: Act, id: nat, item: Item)
    requires IsRun(home, s, acts, id, item)
    requires Enabled(home, After(s, acts), a) && Leaves(After(s, acts), a, id, item)
    ensures IsRun(home, s, acts + [a], id, item) && After(s, acts + [a]) == Next(After(s, acts), a)
    decreases |acts|
  {
    hide Enabled, Next, Leaves;
    if acts == [] {
      assert [a][1..] == [] && [] + [a] == [a];
    } else {
      RunThen(home, Next(s, acts[0]), acts[1..], a, id, item);
      assert (acts + [a])[1..] == acts[1..] + [a];
    }
  }

  ghost predicate Busy(s: State, agent: Agent, id: nat, item: Item)
  {
    && agent != AHand(id) && Active(s, agent) && WritingOf(s, agent).item == item
    && !Idle(Clearing(s, id, item), Ids(s, item), WritingOf(s, agent).todo)
  }

  /** A clearing statement that comes when the correction is through. */
  lemma ClearHarms(home: Item -> Library, s: State, agent: Agent, id: nat, item: Item, ids: Identity.Ids)
    returns (acts: seq<Act>)
    requires Under(s, id, item) && OnTrack(s, id, item, ids) && ids != map[]
    requires Busy(s, agent, id, item) && WritingOf(s, agent).todo[0].ClearIds?
    ensures IsRun(home, s, acts, id, item) && !OnTrack(After(s, acts), id, item, ids)
  {
    var own := OwnFinishes(home, s, id, item, ids);
    var u := After(s, own);
    AgentExecutes(home, u, agent, id, item);
    RunThen(home, s, own, ActOf(agent), id, item);
    assert WritingOf(u, AHand(id)) == u.hands[id];
    hide IsRun, After, Next, Enabled;
    acts := own + [ActOf(agent)];
    assert WritingOf(After(s, acts), AHand(id)) == After(s, acts).hands[id];
  }

  /** An id that the item has not got yet, once the old ones are cleared. */
  lemma InsertHarms(home: Item -> Library, s: State, agent: Agent, id: nat, item: Item, ids: Identity.Ids)
    requires Under(s, id, item) && OnTrack(s, id, item, ids) && OnlyInserts(s.hands[id].todo)
    requires agent != AHand(id) && Active(s, agent)
    requires WritingOf(s, agent).item == item && WritingOf(s, agent).todo != []
    requires var st := WritingOf(s, agent).todo[0]; st.InsertId? && st.provider !in Ids(s, item)
    ensures Enabled(home, s, ActOf(agent)) && Leaves(s, ActOf(agent), id, item)
    ensures !OnTrack(Next(s, ActOf(agent)), id, item, ids)
  {
    var st := WritingOf(s, agent).todo[0];
    AgentExecutes(home, s, agent, id, item);
    InsertBreaks(Ids(s, item), s.hands[id].todo, st.provider, st.value, ids);
    assert WritingOf(s, AHand(id)) == s.hands[id];
    assert WritingOf(Next(s, ActOf(agent)), AHand(id)) == Next(s, ActOf(agent)).hands[id];
    hide Next, Enabled;
  }

  lemma BusyHarms(home: Item -> Library, s: State, agent: Agent, id: nat, item: Item, ids: Identity.Ids)
    returns (acts: seq<Act>)
    requires Under(s, id, item) && OnTrack(s, id, item, ids) && Shaped(s, id, item) && ids != map[]
    requires Busy(s, agent, id, item)
    ensures IsRun(home, s, acts, id, item) && !OnTrack(After(s, acts), id, item, ids)
  {
    if WritingOf(s, agent).todo[0].ClearIds? {
      acts := ClearHarms(home, s, agent, id, item, ids);
    } else if !Clearing(s, id, item) {
      InsertHarms(home, s, agent, id, item, ids);
      acts := [ActOf(agent)];
      OneAct(home, s, ActOf(agent), id, item);
    } else {
      AgentExecutes(home, s, AHand(id), id, item);
      assert WritingOf(s, AHand(id)) == s.hands[id];
      var u := Next(s, GoOn(id));
      assert WritingOf(u, AHand(id)) == u.hands[id];
      OneAct(home, s, GoOn(id), id, item);
      hide Next, Enabled;
      InsertHarms(home, u, agent, id, item, ids);
      RunThen(home, s, [GoOn(id)], ActOf(agent), id, item);
      acts := [GoOn(id)] + [ActOf(agent)];
    }
  }

  lemma OneAct(home: Item -> Library, s: State, a: Act, id: nat, item: Item)
    requires Enabled(home, s, a) && Leaves(s, a, id, item)
    ensures IsRun(home, s, [a], id, item) && After(s, [a]) == Next(s, a)
  {
    assert [a][1..] == [];
  }

  // ---- when a correction arrives ----

  /** Whatever else goes on, and as long as it is not cut off, the correction ends with its ids and keeps them. */
  ghost predicate Arrives(home: Item -> Library, s: State, id: nat, item: Item, ids: Identity.Ids)
  {
    forall acts :: IsRun(home, s, acts, id, item) ==> OnTrack(After(s, acts), id, item, ids)
  }

  /**
   Statement by statement: a correction on its way ends with exactly its ids, and keeps them until the item
   is corrected or reset again, exactly when nobody else has a statement about the item left that gets
   through: none at all while the correction has still to clear the old ids, and afterwards none but one
   whose first is an id of a provider that is already there.
   */
  lemma CorrectionArrivesExactly(home: Item -> Library, s: State, id: nat, item: Item, ids: Identity.Ids)
    requires Under(s, id, item) && OnTrack(s, id, item, ids) && Shaped(s, id, item) && ids != map[]
    ensures Arrives(home, s, id, item, ids) <==> forall agent :: !Busy(s, agent, id, item)
  {
    hide OnTrack, Shaped, Under;
    if forall agent :: !Busy(s, agent, id, item) {
      NobodyBusy(s, id, item, ids);
      forall acts | IsRun(home, s, acts, id, item)
        ensures OnTrack(After(s, acts), id, item, ids)
      {
        RunKeeps(home, s, acts, id, item, ids);
      }
    } else {
      var agent :| Busy(s, agent, id, item);
      var acts := BusyHarms(home, s, agent, id, item, ids);
    }
  }

  lemma NobodyBusy(s: State, id: nat, item: Item, ids: Identity.Ids)
    requires OnTrack(s, id, item, ids) && Shaped(s, id, item) && forall agent :: !Busy(s, agent, id, item)
    ensures Quiet(s, id, item, ids)
  {
    hide Idle, OnTrack, Shaped, Clearing;
    forall library | library in s.tables.writing && s.tables.writing[library].item == item
      ensures Idle(Clearing(s, id, item), Ids(s, item), s.tables.writing[library].todo)
    {
      assert !Busy(s, APass(library), id, item);
    }
    forall other | other in s.hands && other != id && s.hands[other].item == item
      ensures Idle(Clearing(s, id, item), Ids(s, item), s.hands[other].todo)
    {
      assert !Busy(s, AHand(other), id, item);
    }
  }

  // ---- a correction from its start ----

  lemma {:induction false} FinishedSnoc(ids: Identity.Ids, todo: seq<Statement>, st: Statement)
    ensures Finished(ids, todo + [st]) ==
      match Finished(ids, todo)
      case None => None
      case Some(before) => Passes.Executed(before, st)
    decreases |todo|
  {
    if todo == [] {
      assert [] + [st] == [st] && [st][1..] == [];
    } else {
      assert (todo + [st])[1..] == todo[1..] + [st];
      var next := Passes.Executed(ids, todo[0]);
      if next.Some? {
        FinishedSnoc(next.value, todo[1..], st);
      }
    }
  }

  lemma {:induction false} FinishedAll(ids: Identity.Ids, todo: seq<Statement>)
    ensures Finished(ids, todo) == Passes.AllExecuted(ids, todo)
  {
    if todo != [] {
      var init, last := todo[..|todo| - 1], todo[|todo| - 1];
      assert todo == init + [last];
      FinishedAll(ids, init);
      FinishedSnoc(ids, init, last);
      Passes.AllExecutedSnoc(ids, init, last);
    }
  }

  /** The row's statement puts the correction on its way. */
  lemma StartsOnTrack(s: State, id: nat, item: Item, given: seq<(string, string)>, ids: Identity.Ids)
    requires Passes.Enumerates(given, ids) && NonEmpty(ids) == ids
    ensures var u := Next(s, CorrectRow(id, item, given));
      && Under(u, id, item) && OnTrack(u, id, item, ids) && Shaped(u, id, item) && Clearing(u, id, item)
      && Db(u).ids == Db(s).ids
      && Db(u).identity == Db(s).identity[item := FRESH.(status := Manual)]
  {
    hide Passes.Enumerates, NonEmpty, Finished;
    var todo := [Passes.ClearIds] + Passes.Inserts(given);
    Passes.InsertsGive(Ids(s, item), ids, given);
    FinishedAll(Ids(s, item), todo);
    assert todo[1..] == Passes.Inserts(given);
  }

  lemma ProperNamed(given: seq<(string, string)>, ids: Identity.Ids)
    requires Proper(given) && Passes.Enumerates(given, ids) && NonEmpty(ids) == ids
    ensures ids != map[]
  {
    assert given[0].0 in NonEmpty(ids);
  }

  /** Left alone, its statements do what the whole method does. */
  lemma AloneCorrection(home: Item -> Library, s: State, id: nat, item: Item, given: seq<(string, string)>,
                        ids: Identity.Ids) returns (acts: seq<Act>)
    requires Enabled(home, s, CorrectRow(id, item, given)) && Passes.Enumerates(given, ids) && NonEmpty(ids) == ids
    ensures var row := Next(s, CorrectRow(id, item, given));
      var u, whole := After(row, acts), ManualWritten(Db(s), item, ids);
      && IsRun(home, row, acts, id, item) && Under(u, id, item) && u.hands[id].todo == []
      && Db(u).identity == whole.identity && forall i :: Ids(u, i) == IdsOf(whole, i)
  {
    hide Passes.Enumerates, IsRun, After, Finished, Proper, OnTrack, Shaped, Clearing;
    StartsOnTrack(s, id, item, given, ids);
    var row := Next(s, CorrectRow(id, item, given));
    TrackFinishes(row, id, item, ids);
    hide Next, NonEmpty;
    acts := OwnFinishes(home, row, id, item, ids);
  }

  lemma TrackFinishes(s: State, id: nat, item: Item, ids: Identity.Ids)
    requires Under(s, id, item) && OnTrack(s, id, item, ids)
    ensures Finished(Ids(s, item), s.hands[id].todo) == Some(ids)
  {
  }

  /**
   From the moment its row is marked, a correction ends with exactly its ids, and keeps them until the item
   is corrected or reset again, exactly when no pass, correction or reset has any statement about the item
   left.
   */
  lemma FreshCorrectionExactly(home: Item -> Library, s: State, id: nat, item: Item, given: seq<(string, string)>,
                               ids: Identity.Ids)
    requires Enabled(home, s, CorrectRow(id, item, given)) && Passes.Enumerates(given, ids) && NonEmpty(ids) == ids
    ensures Arrives(home, Next(s, CorrectRow(id, item, given)), id, item, ids) <==>
      forall agent :: Active(s, agent) && WritingOf(s, agent).item == item ==> WritingOf(s, agent).todo == []
  {
    hide Passes.Enumerates, Arrives, Proper, OnTrack, Shaped, NonEmpty;
    var u := Next(s, CorrectRow(id, item, given));
    ProperNamed(given, ids);
    StartsOnTrack(s, id, item, given, ids);
    CorrectionArrivesExactly(home, u, id, item, ids);
    forall agent
      ensures Busy(u, agent, id, item) <==>
        Active(s, agent) && WritingOf(s, agent).item == item && WritingOf(s, agent).todo != []
    {
      StartBusy(s, agent, id, item, given);
    }
  }

  lemma StartBusy(s: State, agent: Agent, id: nat, item: Item, given: seq<(string, string)>)
    requires id !in s.hands
    ensures Busy(Next(s, CorrectRow(id, item, given)), agent, id, item) <==>
      Active(s, agent) && WritingOf(s, agent).item == item && WritingOf(s, agent).todo != []
  {
    var todo := [Passes.ClearIds] + Passes.Inserts(given);
    assert todo[0].ClearIds?;
  }

  // ---- what becomes of those that do not arrive ----

  ghost predicate MarkedManual(s: State, item: Item)
  {
    item in Db(s).identity && Db(s).identity[item].status.Manual?
  }

  /**
   A pass's insert between a correction's clearing and its own insert of the same provider: the
   correction fails, and the item stays decided by hand with the pass's id.
   */
  lemma PassInsertStays(home: Item -> Library, s: State, id: nat, library: Library, item: Item, p: string, v: string,
                        other: string) returns (acts: seq<Act>)
    requires Under(s, id, item) && MarkedManual(s, item) && |s.hands[id].todo| >= 2
    requires s.hands[id].todo[0] == Passes.ClearIds && s.hands[id].todo[1] == Passes.InsertId(p, v)
    requires library in s.tables.writing
    requires s.tables.writing[library] == Passes.Writing(item, [Passes.InsertId(p, other)])
    ensures IsRun(home, s, acts, id, item)
    ensures var u := After(s, acts); MarkedManual(u, item) && id !in u.hands && Ids(u, item) == map[p := other]
  {
    var pass := Passes.Proceed(library);
    AgentExecutes(home, s, AHand(id), id, item);
    OneAct(home, s, GoOn(id), id, item);
    var s1 := Next(s, GoOn(id));
    assert WritingOf(s1, AHand(id)) == s1.hands[id] && WritingOf(s1, APass(library)) == WritingOf(s, APass(library));
    AgentExecutes(home, s1, APass(library), id, item);
    RunThen(home, s, [GoOn(id)], Other(pass), id, item);
    var s2 := Next(s1, Other(pass));
    assert WritingOf(s2, AHand(id)) == s2.hands[id] == s1.hands[id];
    assert Ids(s2, item) == map[p := other];
    FailingEnds(home, s2, id, item);
    hide Next, Enabled, IsRun, After;
    RunThen(home, s, [GoOn(id)] + [Other(pass)], GoOn(id), id, item);
    acts := [GoOn(id)] + [Other(pass)] + [GoOn(id)];
  }

  lemma FailingEnds(home: Item -> Library, s: State, id: nat, item: Item)
    requires Under(s, id, item) && s.hands[id].todo != []
    requires Passes.Executed(Ids(s, item), s.hands[id].todo[0]) == None
    ensures Enabled(home, s, GoOn(id)) && Leaves(s, GoOn(id), id, item)
    ensures var u := Next(s, GoOn(id)); id !in u.hands && u.tables == s.tables
  {
  }

  /** Two corrections at once, of different providers: both succeed, and the ids are those that neither gave. */
  lemma TwoCorrectionsMix(home: Item -> Library, s: State, a: nat, b: nat, item: Item, p: string, v: string, q: string,
                          w: string) returns (acts: seq<Act>)
    requires Under(s, a, item) && Under(s, b, item) && a != b && p != q && MarkedManual(s, item)
    requires s.hands[a].todo == [Passes.ClearIds, Passes.InsertId(p, v)]
    requires s.hands[b].todo == [Passes.ClearIds, Passes.InsertId(q, w)]
    ensures IsRun(home, s, acts, a, item)
    ensures var u := After(s, acts);
      && MarkedManual(u, item)
      && Under(u, a, item) && u.hands[a].todo == [] && Under(u, b, item) && u.hands[b].todo == []
      && Ids(u, item) == map[p := v, q := w]
  {
    var s1 := Stepped(home, s, a, a, item);
    OneAct(home, s, GoOn(a), a, item);
    var s2 := Stepped(home, s1, b, a, item);
    RunThen(home, s, [GoOn(a)], GoOn(b), a, item);
    hide IsRun, After, Next, Enabled;
    var s3 := Stepped(home, s2, a, a, item);
    RunThen(home, s, [GoOn(a)] + [GoOn(b)], GoOn(a), a, item);
    var s4 := Stepped(home, s3, b, a, item);
    RunThen(home, s, [GoOn(a)] + [GoOn(b)] + [GoOn(a)], GoOn(b), a, item);
    acts := [GoOn(a)] + [GoOn(b)] + [GoOn(a)] + [GoOn(b)];
  }

  /** One statement of a correction or reset that gets through. */
  lemma Stepped(home: Item -> Library, s: State, hand: nat, id: nat, item: Item) returns (u: State)
    requires Under(s, hand, item) && s.hands[hand].todo != []
    requires Passes.Executed(Ids(s, item), s.hands[hand].todo[0]).Some?
    ensures u == Next(s, GoOn(hand)) && Enabled(home, s, GoOn(hand)) && Leaves(s, GoOn(hand), id, item)
    ensures Ids(u, item) == Passes.Executed(Ids(s, item), s.hands[hand].todo[0]).value
    ensures Under(u, hand, item) && u.hands[hand].todo == s.hands[hand].todo[1..]
    ensures forall other :: other != hand && Under(s, other, item) ==>
      Under(u, other, item) && u.hands[other] == s.hands[other]
    ensures MarkedManual(u, item) <==> MarkedManual(s, item)
  {
    u := Next(s, GoOn(hand));
  }
}
