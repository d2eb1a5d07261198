/**
 An edit by hand whose three calls others come between (internal/service/metadata.go): unlock, write,
 lock. The write's answer whether it was taken is discarded, and until the lock anyone may write again,
 so an edit that succeeds need not be what the field ends with.
 */
module InterleavedSet {
  import opened Text
  import opened ArtworkStore
  import opened MetadataRows
  import opened FieldLocks

  function WriteOf(item: Item, e: Edit): Step
    requires e.field == GENRES ==> e.value.Listing?
  {
    if e.field == GENRES then FieldLocks.WriteGenres(item, MANUAL, e.value.list)
    else FieldLocks.WriteField(item, e.field, MANUAL, e.value)
  }

  /** The edit's own calls, with what others do between them. */
  function EditSteps(item: Item, e: Edit, between: seq<Step>, after: seq<Step>): seq<Step>
    requires e.field == GENRES ==> e.value.Listing?
  {
    [FieldLocks.SetLocked(item, e.field, false)] + between + [WriteOf(item, e)] + after
    + [FieldLocks.SetLocked(item, e.field, true)]
  }

  /** Whether a field that starts unlocked ends locked: the last of its locks and unlocks is a lock. */
  predicate EndsLocked(steps: seq<Step>, cell: Cell)
  {
    exists i :: 0 <= i < |steps| && steps[i] == FieldLocks.SetLocked(cell.item, cell.field, true)
                && FieldLocks.SetLocked(cell.item, cell.field, false) !in steps[i + 1..]
  }

  lemma StepLocks(columns: Columns, db: Db, s: Step, cell: Cell)
    requires cell.item in db.items && cell.field != ""
    ensures var db' := Effected(columns, db, s).db;
      && db'.items == db.items
      && (Locked(db', cell) <==>
            if s == FieldLocks.SetLocked(cell.item, cell.field, true) then true
            else if s == FieldLocks.SetLocked(cell.item, cell.field, false) then false
            else Locked(db, cell))
  {
    hide Kept, RowOf;
  }

  lemma EndsLockedNext(steps: seq<Step>, s: Step, cell: Cell)
    ensures EndsLocked(steps + [s], cell) <==>
      if s == FieldLocks.SetLocked(cell.item, cell.field, true) then true
      else if s == FieldLocks.SetLocked(cell.item, cell.field, false) then false
      else EndsLocked(steps, cell)
  {
    var all, n := steps + [s], |steps|;
    assert all[n] == s && all[n + 1..] == [];
    assert forall i :: 0 <= i < n ==> all[i] == steps[i] && all[i + 1..] == steps[i + 1..] + [s];
  }

  lemma {:induction false} RunLocks(columns: Columns, db: Db, steps: seq<Step>, cell: Cell)
    requires cell.item in db.items && cell.field != "" && !Locked(db, cell)
    ensures Run(columns, db, steps).items == db.items
    ensures Locked(Run(columns, db, steps), cell) <==> EndsLocked(steps, cell)
  {
    hide Effected, Locked;
    if steps != [] {
      hide EndsLocked;
      var init, last := steps[..|steps| - 1], steps[|steps| - 1];
      assert steps == init + [last];
      RunLocks(columns, db, init, cell);
      StepLocks(columns, Run(columns, db, init), last, cell);
      EndsLockedNext(init, last, cell);
    }
  }

  lemma {:induction false} RunAppend(columns: Columns, db: Db, a: seq<Step>, b: seq<Step>)
    ensures Run(columns, db, a + b) == Run(columns, Run(columns, db, a), b)
  {
    hide Effected;
    if b == [] {
      assert a + b == a;
    } else {
      assert (a + b)[..|a + b| - 1] == a + b[..|b| - 1];
      RunAppend(columns, db, a, b[..|b| - 1]);
    }
  }

  lemma RunOne(columns: Columns, db: Db, s: Step)
    ensures Run(columns, db, [s]) == Effected(columns, db, s).db
  {
    hide Effected;
    assert [s][..0] == [];
  }

  /** Left to itself the edit does what the service's method does. */
  lemma AloneIsWhole(columns: Columns, db: Db, item: Item, e: Edit)
    requires item in db.items && Accepted(columns, e).Some?
    ensures Run(columns, db, EditSteps(item, e, [], [])) == Edited(columns, db, item, e).0
  {
    hide Run, FieldWritten, GenresWritten;
    var unlock, lock := FieldLocks.SetLocked(item, e.field, false), FieldLocks.SetLocked(item, e.field, true);
    var w := WriteOf(item, e);
    assert EditSteps(item, e, [], []) == [unlock] + [w] + [lock];
    RunAppend(columns, db, [unlock], [w]);
    RunAppend(columns, db, [unlock] + [w], [lock]);
    RunOne(columns, db, unlock);
    RunOne(columns, Run(columns, db, [unlock]), w);
    RunOne(columns, Run(columns, db, [unlock] + [w]), lock);
    EditHolds(columns, db, item, e);
  }

  /** The state an edit's write meets. */
  function Before(columns: Columns, db: Db, item: Item, e: Edit, between: seq<Step>): Db
  {
    Run(columns, db, [FieldLocks.SetLocked(item, e.field, false)] + between)
  }

  /** The write is taken exactly when the field was not left locked; a write refused changes nothing in the field. */
  lemma WriteTaken(columns: Columns, db: Db, item: Item, e: Edit)
    requires item in db.items && Accepted(columns, e).Some?
    ensures var cell, written := Cell(item, e.field), Effected(columns, db, WriteOf(item, e));
      && written.db.items == db.items
      && written.outcome == (if Locked(db, cell) then LockRefused else Written)
      && (!Locked(db, cell) ==>
            Some(ContentOf(written.db, cell)) == Accepted(columns, e) && cell in written.db.provenance
            && written.db.provenance[cell] == Provenance(MANUAL, false))
      && (Locked(db, cell) ==> SameField(written.db, db, cell))
  {
    if e.field in SCALARS {
      ScalarsAreColumns(e.field);
    }
    hide IsImageField, TypeOf, Kept;
  }

  lemma LockKeepsContent(columns: Columns, db: Db, cell: Cell)
    requires cell.item in db.items && cell.field != ""
    ensures var db' := LockSet(db, cell, true).db;
      && ContentOf(db', cell) == ContentOf(db, cell) && Locked(db', cell)
      && (cell in db.provenance ==> db'.provenance[cell].source == db.provenance[cell].source)
  {
    hide IsImageField, TypeOf;
  }

  lemma UnlockedStart(columns: Columns, db: Db, item: Item, e: Edit, between: seq<Step>)
    requires item in db.items && e.field != ""
    ensures var before := Before(columns, db, item, e, between);
      before.items == db.items && (Locked(before, Cell(item, e.field)) <==> EndsLocked(between, Cell(item, e.field)))
  {
    hide Run, EndsLocked;
    var unlock := FieldLocks.SetLocked(item, e.field, false);
    RunAppend(columns, db, [unlock], between);
    RunOne(columns, db, unlock);
    StepLocks(columns, db, unlock, Cell(item, e.field));
    RunLocks(columns, Run(columns, db, [unlock]), between, Cell(item, e.field));
  }

  lemma EditRun(columns: Columns, db: Db, item: Item, e: Edit, between: seq<Step>, after: seq<Step>)
    requires e.field == GENRES ==> e.value.Listing?
    ensures var written := Effected(columns, Before(columns, db, item, e, between), WriteOf(item, e)).db;
      Run(columns, db, EditSteps(item, e, between, after)) ==
        Effected(columns, Run(columns, written, after), FieldLocks.SetLocked(item, e.field, true)).db
  {
    hide Run, Effected;
    var first := [FieldLocks.SetLocked(item, e.field, false)] + between;
    var w, lock := WriteOf(item, e), FieldLocks.SetLocked(item, e.field, true);
    assert EditSteps(item, e, between, after) == first + [w] + after + [lock];
    RunAppend(columns, db, first, [w]);
    RunOne(columns, Run(columns, db, first), w);
    RunAppend(columns, db, first + [w], after);
    RunAppend(columns, db, first + [w] + after, [lock]);
    RunOne(columns, Run(columns, db, first + [w] + after), lock);
  }

  lemma {:induction false} RunItems(columns: Columns, db: Db, steps: seq<Step>)
    ensures Run(columns, db, steps).items == db.items
  {
    if steps != [] {
      RunItems(columns, db, steps[..|steps| - 1]);
      EffectItems(columns, Run(columns, db, steps[..|steps| - 1]), steps[|steps| - 1]);
    }
  }

  lemma EffectItems(columns: Columns, db: Db, s: Step)
    ensures Effected(columns, db, s).db.items == db.items
  {
    hide Kept, RowOf;
  }

  // ---- what the field ends with ----

  /** A write of the field by anyone, with a source. */
  predicate WritesOf(s: Step, cell: Cell)
  {
    && Subject(s) == cell && ((s.WriteField? && s.field in SCALARS) || s.WriteGenres?)
    && s.source != ""
  }

  /** Some write of the field finds no lock on it, and so takes it for its source. */
  predicate ClaimsAt(steps: seq<Step>, i: nat, cell: Cell)
    requires i < |steps|
  {
    WritesOf(steps[i], cell) && !EndsLocked(steps[..i], cell)
  }

  /** And its value is one the store accepts, so it is stored. */
  predicate TakenAt(columns: Columns, steps: seq<Step>, i: nat, cell: Cell)
    requires i < |steps|
  {
    ClaimsAt(steps, i, cell) && Asked(columns, steps[i]).Some?
  }

  /** What the last write taken asked for, or what was there at the start. */
  function LastTaken(columns: Columns, steps: seq<Step>, cell: Cell, start: Content): Content
  {
    if steps == [] then start
    else
      var n := |steps| - 1;
      if TakenAt(columns, steps, n, cell) then Asked(columns, steps[n]).value
      else LastTaken(columns, steps[..n], cell, start)
  }

  function LastSource(steps: seq<Step>, cell: Cell, start: string): string
  {
    if steps == [] then start
    else
      var n := |steps| - 1;
      if ClaimsAt(steps, n, cell) then steps[n].source else LastSource(steps[..n], cell, start)
  }

  /** A field edits can be made of. */
  predicate Editable(cell: Cell)
  {
    cell.field == GENRES || cell.field in SCALARS
  }

  lemma StepStores(columns: Columns, db: Db, s: Step, cell: Cell)
    requires cell.item in db.items && Editable(cell) && cell in db.provenance
    ensures var db' := Effected(columns, db, s).db; var claims := WritesOf(s, cell) && !Locked(db, cell);
      && cell in db'.provenance
      && db'.provenance[cell].source == (if claims then s.source else db.provenance[cell].source)
      && ContentOf(db', cell) ==
         if claims && Asked(columns, s).Some? then Asked(columns, s).value else ContentOf(db, cell)
  {
    if cell.field in SCALARS {
      ScalarsAreColumns(cell.field);
    }
    if Subject(s) != cell {
      NeighboursUntouched(columns, db, s, cell);
    } else {
      EditableOnly(s, cell);
      hide Kept, RowOf, TypeOf;
    }
  }

  /** A step about such a field writes it or moves its lock. */
  lemma EditableOnly(s: Step, cell: Cell)
    requires Editable(cell) && Subject(s) == cell
    ensures s.WriteField? || s.WriteGenres? || s.SetLocked?
    ensures cell.field != "" && !IsImageField(cell.field)
  {
    if cell.field in SCALARS {
      ScalarsAreColumns(cell.field);
    }
  }

  lemma {:induction false} RunStores(columns: Columns, db: Db, steps: seq<Step>, cell: Cell)
    requires cell.item in db.items && Editable(cell) && cell in db.provenance && !Locked(db, cell)
    ensures var db' := Run(columns, db, steps);
      && db'.items == db.items && (Locked(db', cell) <==> EndsLocked(steps, cell))
      && cell in db'.provenance && db'.provenance[cell].source == LastSource(steps, cell, db.provenance[cell].source)
      && ContentOf(db', cell) == LastTaken(columns, steps, cell, ContentOf(db, cell))
  {
    hide Effected, ContentOf, EndsLocked, Locked, WritesOf, Asked;
    EditableNamed(cell);
    RunLocks(columns, db, steps, cell);
    if steps != [] {
      var n := |steps| - 1;
      RunStores(columns, db, steps[..n], cell);
      StepStores(columns, Run(columns, db, steps[..n]), steps[n], cell);
    }
  }

  lemma EditableNamed(cell: Cell)
    requires Editable(cell)
    ensures cell.field != ""
  {
  }

  lemma AcceptedEditable(columns: Columns, item: Item, e: Edit)
    requires Accepted(columns, e).Some?
    ensures Editable(Cell(item, e.field)) && (e.field == GENRES ==> e.value.Listing?)
    ensures WritesOf(WriteOf(item, e), Cell(item, e.field)) && Asked(columns, WriteOf(item, e)) == Accepted(columns, e)
    ensures WriteOf(item, e).source == MANUAL
  {
    if e.field in SCALARS {
      ScalarsAreColumns(e.field);
    }
  }

  /** The state after the edit's own unlock. */
  function Unlocked(db: Db, item: Item, e: Edit): Db
  {
    LockSet(db, Cell(item, e.field), false).db
  }

  lemma UnlockedKeeps(columns: Columns, db: Db, item: Item, e: Edit)
    requires item in db.items && e.field != ""
    ensures var unlocked, cell := Unlocked(db, item, e), Cell(item, e.field);
      && Effected(columns, db, FieldLocks.SetLocked(item, e.field, false)) == Effect(unlocked, Written)
      && unlocked.items == db.items && cell in unlocked.provenance && !Locked(unlocked, cell)
      && ContentOf(unlocked, cell) == ContentOf(db, cell)
      && (cell in db.provenance ==> unlocked.provenance[cell].source == db.provenance[cell].source)
  {
    hide IsImageField, TypeOf;
  }

  /** The edit's run is its unlock, everything up to its lock, and its lock. */
  lemma EditRunWhole(columns: Columns, db: Db, item: Item, e: Edit, between: seq<Step>, after: seq<Step>)
    requires item in db.items && e.field != "" && (e.field == GENRES ==> e.value.Listing?)
    ensures Run(columns, db, EditSteps(item, e, between, after)) ==
      Effected(columns, Run(columns, Unlocked(db, item, e), between + [WriteOf(item, e)] + after),
               FieldLocks.SetLocked(item, e.field, true)).db
  {
    hide Run, Effected, Unlocked;
    var unlock, lock := FieldLocks.SetLocked(item, e.field, false), FieldLocks.SetLocked(item, e.field, true);
    var inner := between + [WriteOf(item, e)] + after;
    assert EditSteps(item, e, between, after) == [unlock] + inner + [lock];
    RunAppend(columns, db, [unlock], inner);
    RunAppend(columns, db, [unlock] + inner, [lock]);
    RunOne(columns, db, unlock);
    RunOne(columns, Run(columns, db, [unlock] + inner), lock);
    UnlockedKeeps(columns, db, item, e);
  }

  /**
   However others interleave with the calls of an edit the store accepts, those calls succeed and the
   field ends locked. It holds what the last write of it taken before the final lock asked for, whoever
   made that write, and its source is that of the last write that found no lock. So the edit is stored,
   set by hand and pinned, exactly when that last value is the edit's and that last source is a person.
   */
  lemma StoredExactly(columns: Columns, db: Db, item: Item, e: Edit, between: seq<Step>, after: seq<Step>)
    requires item in db.items && Accepted(columns, e).Some?
    ensures var cell, inner := Cell(item, e.field), between + [WriteOf(item, e)] + after;
      var unlocked := Unlocked(db, item, e);
      var end := Run(columns, db, EditSteps(item, e, between, after));
      var content := LastTaken(columns, inner, cell, ContentOf(db, cell));
      && cell in unlocked.provenance
      && var source := LastSource(inner, cell, unlocked.provenance[cell].source);
      && cell in end.provenance && end.provenance[cell] == Provenance(source, true)
      && ContentOf(end, cell) == content
      && (Holds(columns, end, item, e) <==> Some(content) == Accepted(columns, e) && source == MANUAL)
    ensures AllSucceed(columns, db, item, e, between, after)
  {
    hide Run, Effected, ContentOf, EndsLocked, Before, LastTaken, LastSource, Unlocked, EditSteps, LockSet,
      AllSucceed, WriteOf;
    AcceptedEditable(columns, item, e);
    var cell, inner := Cell(item, e.field), between + [WriteOf(item, e)] + after;
    EditableNamed(cell);
    UnlockedKeeps(columns, db, item, e);
    RunStores(columns, Unlocked(db, item, e), inner, cell);
    EditRunWhole(columns, db, item, e, between, after);
    LockKeepsContent(columns, Run(columns, Unlocked(db, item, e), inner), cell);
    LockEffect(columns, Run(columns, Unlocked(db, item, e), inner), item, e.field);
    Succeeds(columns, db, item, e, between, after);
  }

  /** Unlock and lock go through, and so does the write, refused by a lock or not. */
  ghost predicate AllSucceed(columns: Columns, db: Db, item: Item, e: Edit, between: seq<Step>, after: seq<Step>)
    requires e.field == GENRES ==> e.value.Listing?
  {
    var before := Before(columns, db, item, e, between);
    var written := Effected(columns, before, WriteOf(item, e));
    && Effected(columns, db, FieldLocks.SetLocked(item, e.field, false)).outcome == Written
    && written.outcome == (if EndsLocked(between, Cell(item, e.field)) then LockRefused else Written)
    && Effected(columns, Run(columns, written.db, after), FieldLocks.SetLocked(item, e.field, true)).outcome == Written
  }

  lemma Succeeds(columns: Columns, db: Db, item: Item, e: Edit, between: seq<Step>, after: seq<Step>)
    requires item in db.items && Accepted(columns, e).Some?
    ensures AllSucceed(columns, db, item, e, between, after)
  {
    hide Run, Effected, EndsLocked, Before, WriteOf;
    AcceptedEditable(columns, item, e);
    EditableNamed(Cell(item, e.field));
    UnlockedKeeps(columns, db, item, e);
    UnlockedStart(columns, db, item, e, between);
    var before := Before(columns, db, item, e, between);
    WriteTaken(columns, before, item, e);
    var written := Effected(columns, before, WriteOf(item, e)).db;
    RunItems(columns, written, after);
    LockEffect(columns, Run(columns, written, after), item, e.field);
    LockSucceeds(Run(columns, written, after), Cell(item, e.field));
  }

  lemma LockSucceeds(db: Db, cell: Cell)
    requires cell.item in db.items && cell.field != ""
    ensures LockSet(db, cell, true).outcome == Written
  {
  }

  /** What was written before the last write taken makes no difference. */
  lemma {:induction false} TakenDecides(columns: Columns, steps: seq<Step>, i: nat, cell: Cell, start: Content,
                                        source: string)
    requires i < |steps| && TakenAt(columns, steps, i, cell)
    requires forall j :: i < j < |steps| ==> !ClaimsAt(steps, j, cell)
    ensures Some(LastTaken(columns, steps, cell, start)) == Asked(columns, steps[i])
    ensures LastSource(steps, cell, source) == steps[i].source
    decreases |steps|
  {
    hide EndsLocked, Asked, WritesOf;
    var n := |steps| - 1;
    if i < n {
      forall j | i <= j < n
        ensures ClaimsAt(steps[..n], j, cell) <==> ClaimsAt(steps, j, cell)
      {
        assert steps[..n][..j] == steps[..j];
      }
      TakenDecides(columns, steps[..n], i, cell, start, source);
    }
  }

  /** With nothing about the field after its write, the edit is stored exactly when no lock stood at the write. */
  lemma StoredWhenLeftAlone(columns: Columns, db: Db, item: Item, e: Edit, between: seq<Step>, after: seq<Step>)
    requires item in db.items && Accepted(columns, e).Some?
    requires forall s :: s in after ==> Subject(s) != Cell(item, e.field)
    ensures var cell := Cell(item, e.field);
      var before := Before(columns, db, item, e, between);
      var end := Run(columns, db, EditSteps(item, e, between, after));
      && (!EndsLocked(between, cell) ==> Holds(columns, end, item, e))
      && (EndsLocked(between, cell) ==>
            && ContentOf(end, cell) == ContentOf(before, cell)
            && cell in before.provenance && cell in end.provenance
            && end.provenance[cell].source == before.provenance[cell].source)
  {
    hide Run, Effected, ContentOf, EndsLocked, Before;
    var cell := Cell(item, e.field);
    var before := Before(columns, db, item, e, between);
    var written := Effected(columns, before, WriteOf(item, e)).db;
    UnlockedStart(columns, db, item, e, between);
    WriteTaken(columns, before, item, e);
    EditRun(columns, db, item, e, between, after);
    LaterSteps(columns, written, after, 0, |after|, cell);
    assert after[..|after|] == after;
    RunNothing(columns, written, after);
    RunItems(columns, written, after);
    LockKeepsContent(columns, Run(columns, written, after), cell);
    LockEffect(columns, Run(columns, written, after), item, e.field);
  }

  /**
   A refresh whose write falls between the edit's write and its lock: the edit succeeds, and what it
   pins is the refresh's value, under the refresh's source.
   */
  lemma RefreshBeforeLock(columns: Columns, db: Db, item: Item, e: Edit, refresh: Step)
    requires item in db.items && Accepted(columns, e).Some?
    requires WritesOf(refresh, Cell(item, e.field)) && Asked(columns, refresh).Some?
    ensures AllSucceed(columns, db, item, e, [], [refresh])
    ensures var end, cell := Run(columns, db, EditSteps(item, e, [], [refresh])), Cell(item, e.field);
      && Some(ContentOf(end, cell)) == Asked(columns, refresh)
      && cell in end.provenance && end.provenance[cell] == Provenance(refresh.source, true)
      && (Holds(columns, end, item, e) <==> Asked(columns, refresh) == Accepted(columns, e) && refresh.source == MANUAL)
  {
    hide Run, Effected, ContentOf, Before, LastTaken, LastSource, Unlocked, EditSteps, AllSucceed, WriteOf, Asked,
      WritesOf;
    var cell, inner := Cell(item, e.field), [] + [WriteOf(item, e)] + [refresh];
    AcceptedEditable(columns, item, e);
    EditableNamed(cell);
    UnlockedKeeps(columns, db, item, e);
    StoredExactly(columns, db, item, e, [], [refresh]);
    assert inner[1] == refresh && inner[..1] == [WriteOf(item, e)];
    WriteLocksNothing(item, e, cell);
    TakenDecides(columns, inner, 1, cell, ContentOf(db, cell), Unlocked(db, item, e).provenance[cell].source);
  }

  lemma WriteLocksNothing(item: Item, e: Edit, cell: Cell)
    requires e.field == GENRES ==> e.value.Listing?
    ensures !EndsLocked([WriteOf(item, e)], cell)
  {
  }

  lemma RunNothing(columns: Columns, db: Db, steps: seq<Step>)
    ensures Run(columns, db, steps[..0]) == db
  {
  }

  lemma LockEffect(columns: Columns, db: Db, item: Item, field: string)
    ensures Effected(columns, db, FieldLocks.SetLocked(item, field, true)) == LockSet(db, Cell(item, field), true)
  {
  }
}
