/**
 A correction between the single statements of a pass (internal/repository/identity.go). The pass runs
 over the pool, so what it decides about an item is stored statement by statement: the row first, then
 the old ids are cleared, then the new ones are inserted one by one.
 */
module IdentityStatements {
  import opened Text
  import opened Identity

  datatype Statement = ClearIds | InsertId(provider: string, value: string)

  /** The ids after one statement; inserting a second id of one provider breaks the primary key. */
  function Executed(ids: Ids, st: Statement): Option<Ids>
  {
    match st
    case ClearIds => Some(map[])
    case InsertId(p, v) => if p in ids then None else Some(ids[p := v])
  }

  function Inserts(given: seq<(string, string)>): (r: seq<Statement>)
    ensures |r| == |given| && forall i :: 0 <= i < |given| ==> r[i] == InsertId(given[i].0, given[i].1)
  {
    seq(|given|, i requires 0 <= i < |given| => InsertId(given[i].0, given[i].1))
  }

  /** Some order of a map's entries whose value is not empty. */
  ghost predicate Enumerates(given: seq<(string, string)>, ids: Ids)
  {
    && (forall i, j :: 0 <= i < j < |given| ==> given[i].0 != given[j].0)
    && (forall i :: 0 <= i < |given| ==> given[i].0 in NonEmpty(ids) && NonEmpty(ids)[given[i].0] == given[i].1)
    && (forall p :: p in NonEmpty(ids) ==> exists i :: 0 <= i < |given| && given[i].0 == p)
  }

  /** A pass between two statements about an item. */
  datatype Writing = Writing(item: Item, todo: seq<Statement>)

  datatype Tables = Tables(world: World, writing: map<Library, Writing>)

  datatype Move =
    | Whole(step: Step)
    | MatchRow(library: Library, provider: string, confidence: string, via: string, given: seq<(string, string)>)
    | Proceed(library: Library)

  /** A pass goes on to its next item only when it has stored the one before. */
  ghost predicate Enabled(home: Item -> Library, t: Tables, m: Move)
  {
    match m
    case Whole(step) =>
      && Identity.Enabled(home, t.world, step)
      && (step.PassDecides? ==> !step.verdict.Accept? && step.library !in t.writing)
    case MatchRow(library, _, _, _, _) =>
      library in t.world.passes && t.world.passes[library] != [] && library !in t.writing
    case Proceed(library) => library in t.writing
  }

  ghost function Next(t: Tables, m: Move): Tables
  {
    match m
    case Whole(step) =>
      Tables(Identity.Next(t.world, step), if step.EndPass? then t.writing - {step.library} else t.writing)
    case MatchRow(library, provider, confidence, via, given) =>
      if library !in t.world.passes || t.world.passes[library] == [] then t
      else
        var item := t.world.passes[library][0];
        var rest := t.world.(passes := t.world.passes[library := t.world.passes[library][1..]]);
        if !Decidable(t.world.db, item) then t.(world := rest)
        else
          var row := Row(Matched, Some(provider), Some(confidence), Some(via), None);
          Tables(rest.(db := rest.db.(identity := rest.db.identity[item := row])),
                 t.writing[library := Writing(item, [ClearIds] + Inserts(given))])
    case Proceed(library) => if library in t.writing then Proceeded(t, library) else t
  }

  /** The next statement, or none left; a statement that fails ends the pass. */
  ghost function Proceeded(t: Tables, library: Library): Tables
    requires library in t.writing
  {
    var w := t.writing[library];
    if w.todo == [] then t.(writing := t.writing - {library})
    else
      match Executed(IdsOf(t.world.db, w.item), w.todo[0])
      case None => Tables(t.world.(passes := t.world.passes - {library}), t.writing - {library})
      case Some(ids) =>
        Tables(t.world.(db := t.world.db.(ids := t.world.db.ids[w.item := ids])),
               t.writing[library := w.(todo := w.todo[1..])])
  }

  ghost predicate IsRun(home: Item -> Library, t: Tables, moves: seq<Move>)
    decreases |moves|
  {
    moves == [] || (Enabled(home, t, moves[0]) && IsRun(home, Next(t, moves[0]), moves[1..]))
  }

  ghost function After(t: Tables, moves: seq<Move>): Tables
    decreases |moves|
  {
    if moves == [] then t else After(Next(t, moves[0]), moves[1..])
  }

  // ---- a match nothing interferes with ----

  ghost function AllExecuted(ids: Ids, todo: seq<Statement>): Option<Ids>
  {
    if todo == [] then Some(ids)
    else
      match AllExecuted(ids, todo[..|todo| - 1])
      case None => None
      case Some(before) => Executed(before, todo[|todo| - 1])
  }

  lemma AllExecutedSnoc(ids: Ids, todo: seq<Statement>, st: Statement)
    ensures AllExecuted(ids, todo + [st]) ==
      match AllExecuted(ids, todo)
      case None => None
      case Some(before) => Executed(before, st)
  {
    assert (todo + [st])[..|todo|] == todo;
  }

  lemma InsertsNext(given: seq<(string, string)>, n: nat)
    requires n < |given|
    ensures [ClearIds] + Inserts(given[..n + 1]) ==
      [ClearIds] + Inserts(given[..n]) + [InsertId(given[n].0, given[n].1)]
  {
  }

  lemma {:induction false} InsertsFill(ids: Ids, given: seq<(string, string)>, n: nat)
    requires n <= |given| && forall i, j :: 0 <= i < j < |given| ==> given[i].0 != given[j].0
    ensures var r := AllExecuted(ids, [ClearIds] + Inserts(given[..n]));
      && r.Some?
      && (forall i :: 0 <= i < n ==> given[i].0 in r.value && r.value[given[i].0] == given[i].1)
      && (forall p :: p in r.value ==> exists i :: 0 <= i < n && given[i].0 == p)
  {
    if n == 0 {
      AllExecutedSnoc(ids, [], ClearIds);
      assert [ClearIds] + Inserts(given[..0]) == [] + [ClearIds];
    } else {
      hide AllExecuted, Inserts;
      InsertsFill(ids, given, n - 1);
      InsertsNext(given, n - 1);
      AllExecutedSnoc(ids, [ClearIds] + Inserts(given[..n - 1]), InsertId(given[n - 1].0, given[n - 1].1));
    }
  }

  lemma InsertsGive(before: Ids, ids: Ids, given: seq<(string, string)>)
    requires Enumerates(given, ids)
    ensures AllExecuted(before, [ClearIds] + Inserts(given)) == Some(NonEmpty(ids))
  {
    hide AllExecuted, NonEmpty;
    InsertsFill(before, given, |given|);
    assert given[..|given|] == given;
    assert AllExecuted(before, [ClearIds] + Inserts(given)).value == NonEmpty(ids);
  }

  lemma {:induction false} AfterSnoc(home: Item -> Library, t: Tables, moves: seq<Move>, m: Move)
    requires IsRun(home, t, moves) && Enabled(home, After(t, moves), m)
    ensures IsRun(home, t, moves + [m]) && After(t, moves + [m]) == Next(After(t, moves), m)
    decreases |moves|
  {
    hide Enabled, Next;
    if moves == [] {
      assert [m][1..] == [] && [] + [m] == [m];
    } else {
      AfterSnoc(home, Next(t, moves[0]), moves[1..], m);
      assert (moves + [m])[1..] == moves[1..] + [m];
    }
  }

  function Proceeds(library: Library, n: nat): seq<Move>
  {
    if n == 0 then [] else Proceeds(library, n - 1) + [Proceed(library)]
  }

  /** What a pass has done to the tables once it has executed the first n of its statements. */
  ghost predicate Progressed(t: Tables, t': Tables, library: Library, n: nat)
    requires library in t.writing && n <= |t.writing[library].todo|
  {
    var w := t.writing[library];
    && t'.writing == t.writing[library := w.(todo := w.todo[n..])]
    && t'.world.db.identity == t.world.db.identity && t'.world.passes == t.world.passes
    && Some(IdsOf(t'.world.db, w.item)) == AllExecuted(IdsOf(t.world.db, w.item), w.todo[..n])
    && forall other :: other != w.item ==> IdsOf(t'.world.db, other) == IdsOf(t.world.db, other)
  }

  lemma ProgressNext(home: Item -> Library, t: Tables, u: Tables, library: Library, n: nat)
    requires library in t.writing && n < |t.writing[library].todo| && Progressed(t, u, library, n)
    requires AllExecuted(IdsOf(t.world.db, t.writing[library].item), t.writing[library].todo[..n + 1]).Some?
    ensures Enabled(home, u, Proceed(library)) && Progressed(t, Next(u, Proceed(library)), library, n + 1)
  {
    var w := t.writing[library];
    assert w.todo[..n + 1] == w.todo[..n] + [w.todo[n]];
    AllExecutedSnoc(IdsOf(t.world.db, w.item), w.todo[..n], w.todo[n]);
    hide AllExecuted;
    assert w.todo[n..][0] == w.todo[n] && w.todo[n..][1..] == w.todo[n + 1..];
  }

  lemma {:induction false} ProceedsExecute(home: Item -> Library, t: Tables, library: Library, n: nat)
    requires library in t.writing && n <= |t.writing[library].todo|
    requires AllExecuted(IdsOf(t.world.db, t.writing[library].item), t.writing[library].todo[..n]).Some?
    ensures IsRun(home, t, Proceeds(library, n)) && Progressed(t, After(t, Proceeds(library, n)), library, n)
  {
    var w := t.writing[library];
    hide Progressed;
    if n > 0 {
      assert w.todo[..n] == w.todo[..n - 1] + [w.todo[n - 1]];
      AllExecutedSnoc(IdsOf(t.world.db, w.item), w.todo[..n - 1], w.todo[n - 1]);
      hide AllExecuted, Enabled, Next;
      ProceedsExecute(home, t, library, n - 1);
      var before := After(t, Proceeds(library, n - 1));
      ProgressNext(home, t, before, library, n - 1);
      AfterSnoc(home, t, Proceeds(library, n - 1), Proceed(library));
    } else {
      NothingProgressed(t, library);
    }
  }

  lemma NothingProgressed(t: Tables, library: Library)
    requires library in t.writing
    ensures Progressed(t, t, library, 0)
  {
    var w := t.writing[library];
    assert w.todo[0..] == w.todo && w.todo[..0] == [];
  }

  /** Row and statements in a row, the ids in any order of the map, leave what the whole method does. */
  lemma {:induction false} UninterruptedMatch(home: Item -> Library, t: Tables, library: Library, provider: string,
                                              confidence: string, via: string, ids: Ids,
                                              given: seq<(string, string)>)
    requires Enumerates(given, ids) && Enabled(home, t, MatchRow(library, provider, confidence, via, given))
    requires Decidable(t.world.db, t.world.passes[library][0])
    ensures var item := t.world.passes[library][0];
      var row := Next(t, MatchRow(library, provider, confidence, via, given));
      var whole := WithMatch(t.world.db, item, provider, confidence, via, ids);
      var t' := After(row, Proceeds(library, |given| + 1));
      && IsRun(home, row, Proceeds(library, |given| + 1))
      && library in t'.writing && t'.writing[library].todo == []
      && t'.world.db.identity == whole.identity
      && forall other :: IdsOf(t'.world.db, other) == IdsOf(whole, other)
  {
    hide AllExecuted, Enumerates, NonEmpty, After, IsRun, Proceeds;
    var item := t.world.passes[library][0];
    var row := Next(t, MatchRow(library, provider, confidence, via, given));
    var todo := [ClearIds] + Inserts(given);
    InsertsGive(IdsOf(row.world.db, item), ids, given);
    assert todo[..|given| + 1] == todo && todo[|given| + 1..] == [];
    ProceedsExecute(home, row, library, |given| + 1);
  }

  // ---- a correction, and passes under way ----

  /** Neither a correction nor a reset of the item. */
  ghost predicate Leaves(m: Move, item: Item)
  {
    m.Whole? ==> !(m.step.Correct? && m.step.item == item) && !(m.step.ResetItem? && m.step.item == item)
  }

  ghost predicate AllLeave(moves: seq<Move>, item: Item)
  {
    forall m :: m in moves ==> Leaves(m, item)
  }

  /** A human decided the item, and these are its ids. */
  ghost predicate Corrected(t: Tables, item: Item, ids: Ids)
  {
    && item in t.world.db.identity && t.world.db.identity[item].status.Manual?
    && IdsOf(t.world.db, item) == ids
  }

  /**
   What a pass has still to execute cannot get through: nothing, or first an id of a provider that the
   item has an id of already.
   */
  ghost predicate Harmless(ids: Ids, todo: seq<Statement>)
  {
    todo == [] || (todo[0].InsertId? && todo[0].provider in ids)
  }

  ghost predicate AllHarmless(t: Tables, item: Item, ids: Ids)
  {
    forall library :: library in t.writing && t.writing[library].item == item ==> Harmless(ids, t.writing[library].todo)
  }

  lemma WholeKeepsCorrection(t: Tables, m: Move, item: Item, ids: Ids)
    requires m.Whole? && Corrected(t, item, ids) && Leaves(m, item)
    ensures Corrected(Next(t, m), item, ids)
  {
    ManualStepSurvives(t.world, m.step, item);
  }

  lemma MoveKeepsCorrection(home: Item -> Library, t: Tables, m: Move, item: Item, ids: Ids)
    requires Corrected(t, item, ids) && AllHarmless(t, item, ids) && Enabled(home, t, m) && Leaves(m, item)
    ensures Corrected(Next(t, m), item, ids) && AllHarmless(Next(t, m), item, ids)
  {
    if m.Whole? {
      WholeKeepsCorrection(t, m, item, ids);
      hide Identity.Next;
    }
  }

  lemma {:induction false} RunKeepsCorrection(home: Item -> Library, t: Tables, moves: seq<Move>, item: Item, ids: Ids)
    requires Corrected(t, item, ids) && AllHarmless(t, item, ids)
    requires IsRun(home, t, moves) && AllLeave(moves, item)
    ensures Corrected(After(t, moves), item, ids)
    decreases |moves|
  {
    hide Corrected, AllHarmless, Enabled, Next, Leaves;
    if moves != [] {
      assert moves[0] in moves && forall m :: m in moves[1..] ==> m in moves;
      MoveKeepsCorrection(home, t, moves[0], item, ids);
      RunKeepsCorrection(home, Next(t, moves[0]), moves[1..], item, ids);
    }
  }

  /** The correction stands in every continuation without another correction or a reset of the item. */
  ghost predicate Stands(home: Item -> Library, t: Tables, item: Item, ids: Ids)
  {
    forall moves :: IsRun(home, t, moves) && AllLeave(moves, item) ==> Corrected(After(t, moves), item, ids)
  }

  lemma NextStatementHarms(home: Item -> Library, t: Tables, library: Library, ids: Ids)
    requires library in t.writing && !Harmless(ids, t.writing[library].todo)
    requires IdsOf(t.world.db, t.writing[library].item) == ids != map[]
    ensures IsRun(home, t, [Proceed(library)]) && AllLeave([Proceed(library)], t.writing[library].item)
    ensures !Corrected(After(t, [Proceed(library)]), t.writing[library].item, ids)
  {
    var moves := [Proceed(library)];
    assert moves[1..] == [];
    assert After(Next(t, moves[0]), []) == Next(t, moves[0]);
    var st := t.writing[library].todo[0];
    if st.InsertId? {
      assert st.provider in IdsOf(Next(t, moves[0]).world.db, t.writing[library].item);
    }
  }

  /**
   Statement by statement, a correction and its ids stand until the item is corrected or reset again
   exactly when no pass has a statement about the item still to execute that would get through.
   */
  lemma CorrectionStandsExactly(home: Item -> Library, t: Tables, item: Item, ids: Ids)
    requires Corrected(t, item, ids) && ids != map[]
    ensures Stands(home, t, item, ids) <==> AllHarmless(t, item, ids)
  {
    if AllHarmless(t, item, ids) {
      forall moves | IsRun(home, t, moves) && AllLeave(moves, item)
        ensures Corrected(After(t, moves), item, ids)
      {
        RunKeepsCorrection(home, t, moves, item, ids);
      }
    } else {
      var library :| library in t.writing && t.writing[library].item == item && !Harmless(ids, t.writing[library].todo);
      NextStatementHarms(home, t, library, ids);
    }
  }

  /** An accepted correction that comes between a pass's row and its first id statement never stands. */
  lemma CorrectionBetween(home: Item -> Library, t: Tables, library: Library, item: Item, ids: Ids,
                          given: seq<(string, string)>)
    requires library in t.writing && t.writing[library] == Writing(item, [ClearIds] + Inserts(given))
    requires Acceptable(t.world.db, item, ids)
    ensures var t' := Next(t, Whole(Correct(item, ids)));
      Corrected(t', item, ids) && !Stands(home, t', item, ids)
  {
    var t' := Next(t, Whole(Correct(item, ids)));
    assert NonEmpty(ids) == ids;
    CorrectionStandsExactly(home, t', item, ids);
    assert !Harmless(ids, t'.writing[library].todo);
  }

  // ---- what a statement-level run can leave behind ----

  /** The columns the row's own statement writes together. */
  ghost predicate ColumnsSound(row: Row)
  {
    && (row.status.Matched? <==> row.provider.Some?)
    && (row.status.Matched? <==> row.confidence.Some?)
    && (row.status.Matched? <==> row.via.Some?)
    && (row.status.Unmatched? <==> row.reason.Some?)
  }

  /** Only the pass over its own library has the item to decide, once, and then it is pending or decided by hand. */
  ghost predicate Placed(home: Item -> Library, t: Tables, item: Item)
  {
    forall library :: library in t.world.passes && item in t.world.passes[library] ==>
      && home(item) == library && Once(t.world.passes[library], item)
      && item in t.world.db.identity
      && (t.world.db.identity[item].status.Pending? || t.world.db.identity[item].status.Manual?)
  }

  ghost predicate Once(batch: seq<Item>, item: Item)
  {
    forall i, j :: 0 <= i < j < |batch| ==> batch[i] != item || batch[j] != item
  }

  ghost predicate RowSoundAndPlaced(home: Item -> Library, t: Tables, item: Item)
  {
    && (item in t.world.db.identity ==> ColumnsSound(t.world.db.identity[item]))
    && Placed(home, t, item)
  }

  lemma OnceNext(batch: seq<Item>, item: Item)
    requires batch != [] && Once(batch, item)
    ensures Once(batch[1..], item) && (batch[0] == item ==> item !in batch[1..])
    ensures item in batch[1..] ==> item in batch
  {
  }

  lemma DecideKeepsPlaced(home: Item -> Library, t: Tables, m: Move, item: Item)
    requires RowSoundAndPlaced(home, t, item) && Enabled(home, t, m)
    requires m.MatchRow? || (m.Whole? && m.step.PassDecides?)
    ensures RowSoundAndPlaced(home, Next(t, m), item)
  {
    var library := if m.MatchRow? then m.library else m.step.library;
    if item in t.world.passes[library] {
      OnceNext(t.world.passes[library], item);
    }
    assert item !in t.world.passes[library] ==> item !in t.world.passes[library][1..];
  }

  lemma MoveKeepsPlaced(home: Item -> Library, t: Tables, m: Move, item: Item)
    requires RowSoundAndPlaced(home, t, item) && Enabled(home, t, m)
    ensures RowSoundAndPlaced(home, Next(t, m), item)
  {
    if m.MatchRow? || (m.Whole? && m.step.PassDecides?) {
      DecideKeepsPlaced(home, t, m, item);
    }
  }

  lemma {:induction false} RunKeepsPlaced(home: Item -> Library, t: Tables, moves: seq<Move>, item: Item)
    requires RowSoundAndPlaced(home, t, item) && IsRun(home, t, moves)
    ensures RowSoundAndPlaced(home, After(t, moves), item)
    decreases |moves|
  {
    hide RowSoundAndPlaced, Enabled, Next;
    if moves != [] {
      MoveKeepsPlaced(home, t, moves[0], item);
      RunKeepsPlaced(home, Next(t, moves[0]), moves[1..], item);
    }
  }

  const NOTHING := Tables(World(Db(map[], map[]), map[]), map[])

  /** Columns and status agree at every statement of every run: each row is one statement. */
  lemma ReachableRowsSound(home: Item -> Library, moves: seq<Move>, item: Item)
    requires IsRun(home, NOTHING, moves)
    ensures RowSoundAndPlaced(home, After(NOTHING, moves), item)
  {
    RunKeepsPlaced(home, NOTHING, moves, item);
  }

  /** Pending or declined. */
  ghost predicate Undecided(t: Tables, item: Item)
  {
    item in t.world.db.identity &&
    (t.world.db.identity[item].status.Pending? || t.world.db.identity[item].status.Unmatched?)
  }

  ghost predicate InsertIn(todo: seq<Statement>)
  {
    exists i :: 0 <= i < |todo| && todo[i].InsertId?
  }

  /** No pass has an id of the item still to insert. */
  ghost predicate NoInsertLeft(t: Tables, item: Item)
  {
    forall library :: library in t.writing && t.writing[library].item == item ==> !InsertIn(t.writing[library].todo)
  }

  /** The item is never reset while a pass has ids of it still to insert. */
  ghost predicate TimelyResets(t: Tables, moves: seq<Move>, item: Item)
    decreases |moves|
  {
    moves == [] ||
    ((moves[0] == Whole(ResetItem(item)) ==> NoInsertLeft(t, item))
     && TimelyResets(Next(t, moves[0]), moves[1..], item))
  }

  ghost predicate Clean(t: Tables, item: Item)
  {
    item !in t.world.db.identity || Undecided(t, item) ==> IdsOf(t.world.db, item) == map[]
  }

  ghost predicate StaysClean(home: Item -> Library, t: Tables, item: Item)
  {
    forall moves :: IsRun(home, t, moves) && TimelyResets(t, moves, item) ==> Clean(After(t, moves), item)
  }

  ghost predicate Tidy(t: Tables, item: Item)
  {
    Clean(t, item) && (item !in t.world.db.identity || Undecided(t, item) ==> NoInsertLeft(t, item))
  }

  lemma ProceedKeepsTidy(home: Item -> Library, t: Tables, library: Library, item: Item)
    requires Tidy(t, item) && Enabled(home, t, Proceed(library))
    ensures Tidy(Next(t, Proceed(library)), item)
  {
    var w := t.writing[library];
    if w.todo != [] {
      assert InsertIn(w.todo[1..]) ==> InsertIn(w.todo) by {
        if InsertIn(w.todo[1..]) {
          var i :| 0 <= i < |w.todo[1..]| && w.todo[1..][i].InsertId?;
          assert w.todo[i + 1].InsertId?;
        }
      }
      assert w.todo[0].InsertId? ==> InsertIn(w.todo);
    }
    hide InsertIn;
  }

  lemma MoveKeepsTidy(home: Item -> Library, t: Tables, m: Move, item: Item)
    requires Tidy(t, item) && RowSoundAndPlaced(home, t, item) && Enabled(home, t, m)
    requires m == Whole(ResetItem(item)) ==> NoInsertLeft(t, item)
    ensures Tidy(Next(t, m), item)
  {
    hide InsertIn;
    if m.Proceed? {
      ProceedKeepsTidy(home, t, m.library, item);
    }
  }

  lemma {:induction false} RunKeepsTidy(home: Item -> Library, t: Tables, moves: seq<Move>, item: Item)
    requires Tidy(t, item) && RowSoundAndPlaced(home, t, item)
    requires IsRun(home, t, moves) && TimelyResets(t, moves, item)
    ensures Tidy(After(t, moves), item)
    decreases |moves|
  {
    hide Tidy, RowSoundAndPlaced, Enabled, Next, NoInsertLeft;
    if moves != [] {
      MoveKeepsTidy(home, t, moves[0], item);
      MoveKeepsPlaced(home, t, moves[0], item);
      RunKeepsTidy(home, Next(t, moves[0]), moves[1..], item);
    }
  }

  lemma {:induction false} InsertsArrive(home: Item -> Library, t: Tables, library: Library, item: Item)
    returns (moves: seq<Move>)
    requires library in t.writing && t.writing[library].item == item && InsertIn(t.writing[library].todo)
    requires Undecided(t, item) && IdsOf(t.world.db, item) == map[]
    ensures IsRun(home, t, moves) && TimelyResets(t, moves, item)
    ensures Undecided(After(t, moves), item) && IdsOf(After(t, moves).world.db, item) != map[]
    decreases |t.writing[library].todo|
  {
    var todo := t.writing[library].todo;
    var u := Next(t, Proceed(library));
    var rest := [];
    if todo[0].InsertId? {
      assert todo[0].provider in IdsOf(u.world.db, item);
    } else {
      var i :| 0 <= i < |todo| && todo[i].InsertId?;
      assert todo[1..][i - 1].InsertId?;
      rest := InsertsArrive(home, u, library, item);
    }
    moves := [Proceed(library)] + rest;
    assert moves[0] == Proceed(library) && moves[1..] == rest;
  }

  /**
   An undecided item without ids, as a reset leaves it, never carries ids while undecided, as long as
   it is reset only when no pass has ids of it still to insert, exactly when none has now.
   */
  lemma StaysCleanExactly(home: Item -> Library, t: Tables, item: Item)
    requires RowSoundAndPlaced(home, t, item) && Undecided(t, item) && Clean(t, item)
    ensures StaysClean(home, t, item) <==> NoInsertLeft(t, item)
  {
    hide RowSoundAndPlaced, NoInsertLeft;
    if NoInsertLeft(t, item) {
      forall moves | IsRun(home, t, moves) && TimelyResets(t, moves, item)
        ensures Clean(After(t, moves), item)
      {
        RunKeepsTidy(home, t, moves, item);
      }
    } else {
      InsertLeft(t, item);
      var library :| library in t.writing && t.writing[library].item == item && InsertIn(t.writing[library].todo);
      var moves := InsertsArrive(home, t, library, item);
    }
  }

  lemma InsertLeft(t: Tables, item: Item)
    requires !NoInsertLeft(t, item)
    ensures exists library :: library in t.writing && t.writing[library].item == item
                              && InsertIn(t.writing[library].todo)
  {
  }

  /** From empty tables, an undecided item carries no ids in any run whose resets of it are timely. */
  lemma TimelyResetsKeepClean(home: Item -> Library, moves: seq<Move>, item: Item)
    requires IsRun(home, NOTHING, moves) && TimelyResets(NOTHING, moves, item)
    ensures Clean(After(NOTHING, moves), item)
  {
    RunKeepsTidy(home, NOTHING, moves, item);
  }

  // ---- a match without its ids ----

  /** Matched, with these ids, and no pass has statements about the item left. */
  ghost predicate Settled(t: Tables, item: Item, ids: Ids)
  {
    && item in t.world.db.identity && t.world.db.identity[item].status.Matched? && IdsOf(t.world.db, item) == ids
    && forall library :: library in t.writing ==> t.writing[library].item != item
  }

  lemma {:induction false} SettledStays(home: Item -> Library, t: Tables, moves: seq<Move>, item: Item, ids: Ids)
    requires Settled(t, item, ids) && RowSoundAndPlaced(home, t, item)
    requires IsRun(home, t, moves) && AllLeave(moves, item)
    ensures Settled(After(t, moves), item, ids)
    decreases |moves|
  {
    hide Settled, RowSoundAndPlaced, Enabled, Next, Leaves;
    if moves != [] {
      assert moves[0] in moves && forall m :: m in moves[1..] ==> m in moves;
      MoveKeepsSettled(home, t, moves[0], item, ids);
      MoveKeepsPlaced(home, t, moves[0], item);
      SettledStays(home, Next(t, moves[0]), moves[1..], item, ids);
    }
  }

  lemma MoveKeepsSettled(home: Item -> Library, t: Tables, m: Move, item: Item, ids: Ids)
    requires Settled(t, item, ids) && RowSoundAndPlaced(home, t, item) && Enabled(home, t, m) && Leaves(m, item)
    ensures Settled(Next(t, m), item, ids)
  {
  }

  /** A pass that dies after a match's row and before its ids, whichever they were. */
  function CutMatch(library: Library, provider: string, confidence: string, via: string,
                    given: seq<(string, string)>): seq<Move>
  {
    [MatchRow(library, provider, confidence, via, given), Proceed(library), Whole(EndPass(library))]
  }

  /**
   Such a pass leaves a match without any id, and no later pass gives it one: it stays so in every run
   until the item is corrected or reset.
   */
  lemma CutMatchStaysBare(home: Item -> Library, t: Tables, library: Library, provider: string, confidence: string,
                          via: string, given: seq<(string, string)>, later: seq<Move>)
    requires Enabled(home, t, MatchRow(library, provider, confidence, via, given))
    requires Decidable(t.world.db, t.world.passes[library][0])
    requires RowSoundAndPlaced(home, t, t.world.passes[library][0])
    requires forall other :: other in t.writing ==> t.writing[other].item != t.world.passes[library][0]
    ensures IsRun(home, t, CutMatch(library, provider, confidence, via, given))
    ensures var item := t.world.passes[library][0];
      var t' := After(t, CutMatch(library, provider, confidence, via, given));
      && Settled(t', item, map[])
      && (IsRun(home, t', later) && AllLeave(later, item) ==> Settled(After(t', later), item, map[]))
  {
    hide Settled, RowSoundAndPlaced;
    var item := t.world.passes[library][0];
    var moves := CutMatch(library, provider, confidence, via, given);
    CutRuns(home, t, library, provider, confidence, via, given);
    RunKeepsPlaced(home, t, moves, item);
    if IsRun(home, After(t, moves), later) && AllLeave(later, item) {
      SettledStays(home, After(t, moves), later, item, map[]);
    }
  }

  lemma CutRuns(home: Item -> Library, t: Tables, library: Library, provider: string, confidence: string,
                via: string, given: seq<(string, string)>)
    requires Enabled(home, t, MatchRow(library, provider, confidence, via, given))
    requires Decidable(t.world.db, t.world.passes[library][0])
    requires forall other :: other in t.writing ==> t.writing[other].item != t.world.passes[library][0]
    ensures var moves := CutMatch(library, provider, confidence, via, given);
      IsRun(home, t, moves) && Settled(After(t, moves), t.world.passes[library][0], map[])
  {
    hide Settled;
    var row, clear := MatchRow(library, provider, confidence, via, given), Proceed(library);
    ThreeMoves(home, t, row, clear, Whole(EndPass(library)));
    RowThenClear(home, t, library, provider, confidence, via, given);
    ClearedThenEnd(home, Next(Next(t, row), clear), library, t.world.passes[library][0]);
  }

  lemma ThreeMoves(home: Item -> Library, t: Tables, a: Move, b: Move, c: Move)
    ensures IsRun(home, t, [a, b, c]) <==>
            Enabled(home, t, a) && Enabled(home, Next(t, a), b) && Enabled(home, Next(Next(t, a), b), c)
    ensures After(t, [a, b, c]) == Next(Next(Next(t, a), b), c)
  {
    hide Enabled, Next;
    var u := Next(Next(t, a), b);
    assert [a, b, c][1..] == [b, c] && [b, c][1..] == [c] && [c][1..] == [];
    assert IsRun(home, u, [c]) <==> Enabled(home, u, c);
    assert After(u, [c]) == After(Next(u, c), []);
  }

  /** Matched without ids, with no statements about the item left but those of one library's pass. */
  ghost predicate Cleared(t: Tables, library: Library, item: Item)
  {
    && item in t.world.db.identity && t.world.db.identity[item].status.Matched?
    && IdsOf(t.world.db, item) == map[] && library in t.world.passes
    && forall other :: other in t.writing && other != library ==> t.writing[other].item != item
  }

  lemma RowThenClear(home: Item -> Library, t: Tables, library: Library, provider: string, confidence: string,
                     via: string, given: seq<(string, string)>)
    requires Enabled(home, t, MatchRow(library, provider, confidence, via, given))
    requires Decidable(t.world.db, t.world.passes[library][0])
    requires forall other :: other in t.writing ==> t.writing[other].item != t.world.passes[library][0]
    ensures var row := Next(t, MatchRow(library, provider, confidence, via, given));
      && Enabled(home, row, Proceed(library))
      && Cleared(Next(row, Proceed(library)), library, t.world.passes[library][0])
  {
    var item := t.world.passes[library][0];
    var row := Next(t, MatchRow(library, provider, confidence, via, given));
    assert row.writing == t.writing[library := Writing(item, [ClearIds] + Inserts(given))];
  }

  lemma ClearedThenEnd(home: Item -> Library, t: Tables, library: Library, item: Item)
    requires Cleared(t, library, item)
    ensures Enabled(home, t, Whole(EndPass(library)))
    ensures Settled(Next(t, Whole(EndPass(library))), item, map[])
  {
  }
}
