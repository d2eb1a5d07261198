/**
 Field locks between single statements (internal/repository/metadata.go, internal/repository/artwork.go).
 The services hand the repositories the pool, so each statement commits by itself: a writer claims its
 field, and stores what it claimed it for in later statements that look at no lock.
 */
module LockStatements {
  import opened Text
  import opened ArtworkStore
  import opened MetadataRows
  import FieldLocks

  type Write = FieldLocks.Step

  datatype Statement =
    | StoreValue(cell: Cell, value: Value)
    | ClearGenres(item: Item)
    | AddGenre(item: Item, genre: string)
    | StoreImage(key: Key, row: Image)

  function Target(st: Statement): Cell
  {
    match st
    case StoreValue(cell, _) => cell
    case ClearGenres(item) => Cell(item, GENRES)
    case AddGenre(item, _) => Cell(item, GENRES)
    case StoreImage(key, _) => FieldLocks.FieldOf(key.item, key.imageType)
  }

  function GenresOf(db: Db, item: Item): seq<string>
  {
    if item in db.genres then db.genres[item] else []
  }

  function Executed(db: Db, st: Statement): Db
  {
    match st
    case StoreValue(cell, value) => db.(cells := db.cells[cell := value])
    case ClearGenres(item) => db.(genres := db.genres[item := []])
    case AddGenre(item, genre) =>
      if genre in GenresOf(db, item) then db
      else db.(genres := db.genres[item := GenresOf(db, item) + [genre]])
    case StoreImage(key, row) => db.(images := db.images[key := row])
  }

  function ExecutedAll(db: Db, todo: seq<Statement>): Db
  {
    if todo == [] then db else Executed(ExecutedAll(db, todo[..|todo| - 1]), todo[|todo| - 1])
  }

  function Additions(item: Item, list: seq<string>): seq<Statement>
  {
    if list == [] then []
    else
      var last := list[|list| - 1];
      Additions(item, list[..|list| - 1]) + (if last == "" then [] else [AddGenre(item, last)])
  }

  predicate IsWrite(s: Write)
  {
    s.WriteField? || s.WriteGenres? || s.WriteImage?
  }

  /** Whether a write gets as far as its claim. */
  predicate ReachesClaim(db: Db, s: Write)
    requires IsWrite(s)
  {
    && FieldLocks.Subject(s).item in db.items && s.source != ""
    && (s.WriteField? ==> s.field in SCALARS)
    && (s.WriteImage? ==> ImageField(s.imageType).Some?)
  }

  /** The statement before the claim. */
  function Prepared(db: Db, s: Write): Db
  {
    if s.WriteField? then db.(fetched := db.fetched + {s.item}) else db
  }

  /** The statements after the claim; a value the column refuses is stored by none. */
  function Remaining(columns: Columns, s: Write): seq<Statement>
    requires IsWrite(s)
  {
    match s
    case WriteField(item, field, _, value) =>
      (match columns(field, value) case None => [] case Some(v) => [StoreValue(Cell(item, field), v)])
    case WriteGenres(item, _, list) => [ClearGenres(item)] + Additions(item, list)
    case WriteImage(item, imageType, _, img) => [StoreImage(Key(item, imageType), RowOf(img))]
  }

  // ---- a write nothing interferes with ----

  lemma ExecutedSnoc(db: Db, todo: seq<Statement>, st: Statement)
    ensures ExecutedAll(db, todo + [st]) == Executed(ExecutedAll(db, todo), st)
  {
    hide Executed;
    assert (todo + [st])[..|todo|] == todo;
  }

  lemma AdditionAdds(db: Db, item: Item, init: seq<string>, genre: string)
    requires genre != ""
    ensures Executed(db.(genres := db.genres[item := Kept(init)]), AddGenre(item, genre)) ==
      db.(genres := db.genres[item := Kept(init + [genre])])
  {
    assert (init + [genre])[..|init|] == init;
  }

  lemma {:induction false} AdditionsKeep(db: Db, item: Item, list: seq<string>)
    ensures ExecutedAll(db, [ClearGenres(item)] + Additions(item, list)) == db.(genres := db.genres[item := Kept(list)])
  {
    if list == [] {
      ExecutedOne(db, ClearGenres(item));
      assert [ClearGenres(item)] + Additions(item, list) == [ClearGenres(item)];
    } else {
      hide ExecutedAll, Executed;
      var init, last := list[..|list| - 1], list[|list| - 1];
      assert list == init + [last];
      var before := [ClearGenres(item)] + Additions(item, init);
      AdditionsKeep(db, item, init);
      if last == "" {
        assert [ClearGenres(item)] + Additions(item, list) == before;
      } else {
        assert [ClearGenres(item)] + Additions(item, list) == before + [AddGenre(item, last)];
        ExecutedSnoc(db, before, AddGenre(item, last));
        AdditionAdds(db, item, init, last);
      }
    }
  }

  lemma ExecutedOne(db: Db, st: Statement)
    ensures ExecutedAll(db, []) == db && ExecutedAll(db, [st]) == Executed(db, st)
  {
    assert [st][..0] == [];
  }

  /** Row, claim and remaining statements in a row are the whole method. */
  lemma UninterruptedWrite(columns: Columns, db: Db, s: Write)
    requires IsWrite(s) && ReachesClaim(db, s)
    ensures FieldLocks.Effected(columns, db, s).db ==
      var db1 := Prepared(db, s);
      if Locked(db, FieldLocks.Subject(s)) then db1
      else ExecutedAll(Claimed(db1, FieldLocks.Subject(s), s.source), Remaining(columns, s))
  {
    hide ExecutedAll, Kept;
    var claimed := Claimed(Prepared(db, s), FieldLocks.Subject(s), s.source);
    match s {
      case WriteField(item, field, _, value) =>
        var stored := if columns(field, value).Some? then columns(field, value).value else Null;
        ExecutedOne(claimed, StoreValue(Cell(item, field), stored));
      case WriteGenres(item, _, list) => AdditionsKeep(claimed, item, list);
      case WriteImage(item, imageType, _, img) => ExecutedOne(claimed, StoreImage(Key(item, imageType), RowOf(img)));
    }
  }

  // ---- writers, interleaved statement by statement ----

  /** A claim that went through, and what its writer has still to execute. */
  datatype Writer = Writer(cell: Cell, todo: seq<Statement>)

  datatype World = World(db: Db, held: map<nat, Writer>)

  datatype Move =
    | Prepare(write: Write)
    | Claim(id: nat, write: Write)
    | Proceed(id: nat)
    | GiveUp(id: nat)
    | Pin(cell: Cell, locked: bool)
    | DropImage(item: Item, imageType: string)

  ghost predicate Enabled(w: World, m: Move)
  {
    match m
    case Prepare(write) => IsWrite(write) && ReachesClaim(w.db, write)
    case Claim(id, write) => id !in w.held && IsWrite(write) && ReachesClaim(w.db, write)
    case Proceed(id) => id in w.held && w.held[id].todo != []
    case GiveUp(id) => id in w.held
    case _ => true
  }

  ghost function Next(columns: Columns, w: World, m: Move): World
    requires Enabled(w, m)
  {
    match m
    case Prepare(write) => w.(db := Prepared(w.db, write))
    case Claim(id, write) =>
      var cell := FieldLocks.Subject(write);
      if Locked(w.db, cell) then w
      else World(Claimed(w.db, cell, write.source), w.held[id := Writer(cell, Remaining(columns, write))])
    case Proceed(id) =>
      var h := w.held[id];
      World(Executed(w.db, h.todo[0]), w.held[id := h.(todo := h.todo[1..])])
    case GiveUp(id) => w.(held := w.held - {id})
    case Pin(cell, locked) => w.(db := LockSet(w.db, cell, locked).db)
    case DropImage(item, imageType) => w.(db := ImageDeleted(w.db, Key(item, imageType)))
  }

  ghost predicate IsRun(columns: Columns, w: World, moves: seq<Move>)
    decreases |moves|
  {
    moves == [] || (Enabled(w, moves[0]) && IsRun(columns, Next(columns, w, moves[0]), moves[1..]))
  }

  ghost function After(columns: Columns, w: World, moves: seq<Move>): World
    requires IsRun(columns, w, moves)
    decreases |moves|
  {
    if moves == [] then w else After(columns, Next(columns, w, moves[0]), moves[1..])
  }

  /** Neither an unlock of the field nor the clearing of its image row. */
  ghost predicate Spares(m: Move, cell: Cell)
  {
    && m != Pin(cell, false)
    && (m.DropImage? ==> FieldLocks.FieldOf(m.item, m.imageType) != cell)
  }

  ghost predicate AllSpare(moves: seq<Move>, cell: Cell)
  {
    forall m :: m in moves ==> Spares(m, cell)
  }

  /** Every writer stores into the field it claimed. */
  ghost predicate HeldSound(w: World)
  {
    forall id, st :: id in w.held && st in w.held[id].todo ==> Target(st) == w.held[id].cell
  }

  ghost predicate Keeps(db: Db, cell: Cell, st: Statement)
  {
    FieldLocks.ContentOf(Executed(db, st), cell) == FieldLocks.ContentOf(db, cell)
  }

  /** Whatever writers that claimed the field have still to execute would store what is already there. */
  ghost predicate HeldHarmless(w: World, cell: Cell)
  {
    forall id, st :: id in w.held && w.held[id].cell == cell && st in w.held[id].todo ==> Keeps(w.db, cell, st)
  }

  lemma OtherStatement(db: Db, cell: Cell, st: Statement)
    requires Target(st) != cell
    ensures Keeps(db, cell, st)
  {
  }

  /** What a statement leaves in its field depends on what the field held, and on nothing else. */
  lemma ContentDecides(a: Db, b: Db, cell: Cell, st: Statement)
    requires Target(st) == cell && FieldLocks.ContentOf(a, cell) == FieldLocks.ContentOf(b, cell)
    ensures Keeps(a, cell, st) <==> Keeps(b, cell, st)
  {
  }

  lemma RemainingTargets(columns: Columns, s: Write)
    requires IsWrite(s)
    ensures forall st :: st in Remaining(columns, s) ==> Target(st) == FieldLocks.Subject(s)
  {
    if s.WriteGenres? {
      AdditionsTarget(s.item, s.list);
    }
  }

  lemma {:induction false} AdditionsTarget(item: Item, list: seq<string>)
    ensures forall st :: st in Additions(item, list) ==> Target(st) == Cell(item, GENRES)
  {
    if list != [] {
      AdditionsTarget(item, list[..|list| - 1]);
    }
  }

  lemma MoveKeepsSound(columns: Columns, w: World, m: Move)
    requires HeldSound(w) && Enabled(w, m)
    ensures HeldSound(Next(columns, w, m))
  {
    hide Remaining, Executed, LockSet, ImageDeleted, Prepared;
    if m.Claim? {
      RemainingTargets(columns, m.write);
    }
  }

  /** One move of a run that spares a locked field. */
  ghost predicate Untouched(w: World, w': World, cell: Cell)
    requires Locked(w.db, cell)
  {
    && Locked(w'.db, cell) && w'.db.provenance[cell] == w.db.provenance[cell]
    && (forall id :: id in w'.held && w'.held[id].cell == cell ==>
          id in w.held && w.held[id].cell == cell && forall st :: st in w'.held[id].todo ==> st in w.held[id].todo)
  }

  lemma MoveKeepsLock(columns: Columns, w: World, m: Move, cell: Cell)
    requires Locked(w.db, cell) && Enabled(w, m) && Spares(m, cell)
    ensures Untouched(w, Next(columns, w, m), cell)
  {
    hide Remaining;
  }

  lemma MoveKeepsContent(columns: Columns, w: World, m: Move, cell: Cell)
    requires Locked(w.db, cell) && cell.field != "" && Enabled(w, m) && Spares(m, cell)
    requires HeldSound(w) && HeldHarmless(w, cell)
    ensures FieldLocks.ContentOf(Next(columns, w, m).db, cell) == FieldLocks.ContentOf(w.db, cell)
  {
    if m.Proceed? {
      ProceedKeepsContent(w, m.id, cell);
    } else if m.DropImage? {
      FieldLocks.DeletionSparesOthers(w.db, Key(m.item, m.imageType), cell);
    } else {
      hide IsImageField, FieldLocks.TypeOf;
    }
  }

  lemma ProceedKeepsContent(w: World, id: nat, cell: Cell)
    requires HeldSound(w) && HeldHarmless(w, cell) && id in w.held && w.held[id].todo != []
    ensures Keeps(w.db, cell, w.held[id].todo[0])
  {
    hide Keeps;
    var st := w.held[id].todo[0];
    assert st in w.held[id].todo;
    if Target(st) != cell {
      OtherStatement(w.db, cell, st);
    }
  }

  lemma MoveKeepsHarmless(columns: Columns, w: World, m: Move, cell: Cell)
    requires Locked(w.db, cell) && cell.field != "" && Enabled(w, m) && Spares(m, cell)
    requires HeldSound(w) && HeldHarmless(w, cell)
    ensures HeldHarmless(Next(columns, w, m), cell)
  {
    hide Keeps, Next, Enabled;
    var w' := Next(columns, w, m);
    MoveKeepsLock(columns, w, m, cell);
    MoveKeepsContent(columns, w, m, cell);
    forall id, st | id in w'.held && w'.held[id].cell == cell && st in w'.held[id].todo
      ensures Keeps(w'.db, cell, st)
    {
      assert st in w.held[id].todo;
      ContentDecides(w.db, w'.db, cell, st);
    }
  }

  /** At every moment of every run the lock and the source stay; the content stays when claims held are harmless. */
  lemma {:induction false} RunKeeps(columns: Columns, w: World, moves: seq<Move>, cell: Cell)
    requires Locked(w.db, cell) && cell.field != "" && HeldSound(w)
    requires IsRun(columns, w, moves) && AllSpare(moves, cell)
    ensures var w' := After(columns, w, moves);
      && Locked(w'.db, cell) && w'.db.provenance[cell] == w.db.provenance[cell]
      && (HeldHarmless(w, cell) ==> FieldLocks.ContentOf(w'.db, cell) == FieldLocks.ContentOf(w.db, cell))
    decreases |moves|
  {
    hide Locked, HeldSound, HeldHarmless, Next, Enabled, Spares;
    if moves != [] {
      assert moves[0] in moves && forall m :: m in moves[1..] ==> m in moves;
      MoveKeepsSound(columns, w, moves[0]);
      MoveKeepsLock(columns, w, moves[0], cell);
      if HeldHarmless(w, cell) {
        MoveKeepsContent(columns, w, moves[0], cell);
        MoveKeepsHarmless(columns, w, moves[0], cell);
      }
      RunKeeps(columns, Next(columns, w, moves[0]), moves[1..], cell);
    }
  }

  /** A writer that would store something else goes on until it has. */
  lemma {:induction false} HarmDone(columns: Columns, w: World, cell: Cell, id: nat,
                                    st: Statement) returns (moves: seq<Move>)
    requires HeldSound(w) && id in w.held && w.held[id].cell == cell && st in w.held[id].todo && !Keeps(w.db, cell, st)
    ensures IsRun(columns, w, moves) && AllSpare(moves, cell)
    ensures FieldLocks.ContentOf(After(columns, w, moves).db, cell) != FieldLocks.ContentOf(w.db, cell)
    decreases |w.held[id].todo|
  {
    hide Executed;
    var h := w.held[id];
    var w' := Next(columns, w, Proceed(id));
    if !Keeps(w.db, cell, h.todo[0]) {
      moves := [Proceed(id)];
      assert moves[1..] == [];
      assert After(columns, w', []) == w';
    } else {
      MoveKeepsSound(columns, w, Proceed(id));
      ContentDecides(w.db, w'.db, cell, st);
      assert st in w'.held[id].todo;
      var rest := HarmDone(columns, w', cell, id, st);
      moves := [Proceed(id)] + rest;
      assert moves[1..] == rest;
    }
  }

  /** The field's content outlasts every statement-level run up to its next unlock. */
  ghost predicate ContentOutlasts(columns: Columns, w: World, cell: Cell)
  {
    forall moves :: IsRun(columns, w, moves) && AllSpare(moves, cell) ==>
      FieldLocks.ContentOf(After(columns, w, moves).db, cell) == FieldLocks.ContentOf(w.db, cell)
  }

  /**
   Statement by statement, a lock keeps a field's content until the next unlock exactly when every
   claim held on the field at the time of the lock would store what is already there.
   */
  lemma LockKeepsExactly(columns: Columns, w: World, cell: Cell)
    requires Locked(w.db, cell) && cell.field != "" && HeldSound(w)
    ensures ContentOutlasts(columns, w, cell) <==> HeldHarmless(w, cell)
  {
    if HeldHarmless(w, cell) {
      forall moves | IsRun(columns, w, moves) && AllSpare(moves, cell)
        ensures FieldLocks.ContentOf(After(columns, w, moves).db, cell) == FieldLocks.ContentOf(w.db, cell)
      {
        RunKeeps(columns, w, moves, cell);
      }
    } else {
      var id, st :| id in w.held && w.held[id].cell == cell && st in w.held[id].todo && !Keeps(w.db, cell, st);
      var moves := HarmDone(columns, w, cell, id, st);
    }
  }

  /** Which claims are harmless, in terms of what they were made for. */
  lemma ClaimHarmlessExactly(columns: Columns, db: Db, s: Write)
    requires IsWrite(s) && ReachesClaim(db, s)
    ensures var cell := FieldLocks.Subject(s);
      (forall st :: st in Remaining(columns, s) ==> Keeps(db, cell, st)) <==>
        match s
        case WriteField(_, field, _, value) =>
          columns(field, value).Some? ==>
            FieldLocks.ContentOf(db, cell) == FieldLocks.Column(columns(field, value).value)
        case WriteGenres(_, _, list) => GenresOf(db, s.item) == [] && Kept(list) == []
        case WriteImage(_, _, _, img) => FieldLocks.ContentOf(db, cell) == FieldLocks.Picture(Some(RowOf(img)))
  {
    var cell := FieldLocks.Subject(s);
    if s.WriteField? {
      if columns(s.field, s.value).Some? {
        var v := columns(s.field, s.value).value;
        ValueHarmless(db, cell, v);
        assert Remaining(columns, s) == [StoreValue(cell, v)] && StoreValue(cell, v) in Remaining(columns, s);
      }
    } else if s.WriteImage? {
      var key := Key(s.item, s.imageType);
      assert Remaining(columns, s)[0] == StoreImage(key, RowOf(s.img));
      ImageHarmless(db, key, RowOf(s.img));
    } else {
      GenresHarmless(columns, db, s);
    }
  }

  lemma ValueHarmless(db: Db, cell: Cell, v: Value)
    requires cell.field in SCALARS
    ensures Keeps(db, cell, StoreValue(cell, v)) <==> FieldLocks.ContentOf(db, cell) == FieldLocks.Column(v)
  {
    FieldLocks.ScalarsAreColumns(cell.field);
  }

  lemma ImageHarmless(db: Db, key: Key, row: Image)
    requires ImageField(key.imageType).Some?
    ensures var cell := FieldLocks.FieldOf(key.item, key.imageType);
      Keeps(db, cell, StoreImage(key, row)) <==> FieldLocks.ContentOf(db, cell) == FieldLocks.Picture(Some(row))
  {
  }

  lemma GenresHarmless(columns: Columns, db: Db, s: Write)
    requires s.WriteGenres?
    ensures (forall st :: st in Remaining(columns, s) ==> Keeps(db, Cell(s.item, GENRES), st)) <==>
      GenresOf(db, s.item) == [] && Kept(s.list) == []
  {
    var todo := Remaining(columns, s);
    assert todo[0] == ClearGenres(s.item);
    assert Keeps(db, Cell(s.item, GENRES), todo[0]) <==> GenresOf(db, s.item) == [];
    AdditionsOf(s.item, s.list);
    if GenresOf(db, s.item) == [] && Kept(s.list) != [] {
      var g := Kept(s.list)[0];
      assert g in Kept(s.list);
      assert AddGenre(s.item, g) in todo;
      assert !Keeps(db, Cell(s.item, GENRES), AddGenre(s.item, g));
    }
    assert Kept(s.list) == [] ==> forall st :: st in todo ==> st == ClearGenres(s.item);
  }

  lemma {:induction false} AdditionsOf(item: Item, list: seq<string>)
    ensures forall st :: st in Additions(item, list) <==> st.AddGenre? && st.item == item && st.genre in Kept(list)
  {
    KeptMembers(list);
    if list != [] {
      KeptMembers(list[..|list| - 1]);
      assert list == list[..|list| - 1] + [list[|list| - 1]];
      AdditionsOf(item, list[..|list| - 1]);
    }
  }

  /**
   An edit by hand that comes whole between a refresh's claim and its update: it outlasts the refresh
   exactly when the column makes the same of both values. The field is locked and marked as set by hand
   in either case.
   */
  lemma EditBetweenStatements(columns: Columns, w: World, id: nat, refresh: Write, edit: FieldLocks.Edit)
    requires HeldSound(w) && refresh.WriteField? && ReachesClaim(w.db, refresh) && edit.field == refresh.field
    requires id in w.held && w.held[id] == Writer(FieldLocks.Subject(refresh), Remaining(columns, refresh))
    requires forall other :: other in w.held && other != id ==> w.held[other].cell != FieldLocks.Subject(refresh)
    requires columns(refresh.field, refresh.value).Some? && columns(edit.field, edit.value).Some?
    ensures var edited := w.(db := FieldLocks.SetSpec(columns, w.db, refresh.item, [edit]).0);
      && FieldLocks.Holds(columns, edited.db, refresh.item, edit)
      && (ContentOutlasts(columns, edited, FieldLocks.Subject(refresh)) <==>
            columns(edit.field, edit.value) == columns(refresh.field, refresh.value))
  {
    var cell := FieldLocks.Subject(refresh);
    var edited := w.(db := FieldLocks.SetSpec(columns, w.db, refresh.item, [edit]).0);
    FieldLocks.ScalarsAreColumns(refresh.field);
    FieldLocks.SetStoresAndLocks(columns, w.db, refresh.item, [edit]);
    assert FieldLocks.LastOfField([edit], 1, 0) && [edit][0] == edit;
    FieldLocks.EditItems(columns, w.db, refresh.item, [edit]);
    hide FieldLocks.SetSpec, FieldLocks.ContentOf, Keeps, Remaining;
    ClaimHarmlessExactly(columns, edited.db, refresh);
    LockKeepsExactly(columns, edited, cell);
  }

  /**
   The same of two writes of genres: what the edit stored outlasts the refresh, at every moment, exactly
   when neither list has a genre, for the refresh clears the list before it adds to it.
   */
  lemma GenresBetweenStatements(columns: Columns, w: World, id: nat, refresh: Write, edit: FieldLocks.Edit)
    requires HeldSound(w) && refresh.WriteGenres? && ReachesClaim(w.db, refresh)
    requires edit.field == GENRES && edit.value.Listing?
    requires id in w.held && w.held[id] == Writer(FieldLocks.Subject(refresh), Remaining(columns, refresh))
    requires forall other :: other in w.held && other != id ==> w.held[other].cell != FieldLocks.Subject(refresh)
    ensures var edited := w.(db := FieldLocks.SetSpec(columns, w.db, refresh.item, [edit]).0);
      && FieldLocks.Holds(columns, edited.db, refresh.item, edit)
      && (ContentOutlasts(columns, edited, FieldLocks.Subject(refresh)) <==>
            Kept(edit.value.list) == [] && Kept(refresh.list) == [])
  {
    var cell := FieldLocks.Subject(refresh);
    var edited := w.(db := FieldLocks.SetSpec(columns, w.db, refresh.item, [edit]).0);
    FieldLocks.SetStoresAndLocks(columns, w.db, refresh.item, [edit]);
    assert FieldLocks.LastOfField([edit], 1, 0) && [edit][0] == edit;
    FieldLocks.EditItems(columns, w.db, refresh.item, [edit]);
    assert FieldLocks.ContentOf(edited.db, cell) == FieldLocks.List(GenresOf(edited.db, refresh.item));
    hide FieldLocks.SetSpec, FieldLocks.ContentOf, Keeps, Remaining;
    ClaimHarmlessExactly(columns, edited.db, refresh);
    LockKeepsExactly(columns, edited, cell);
  }
}
