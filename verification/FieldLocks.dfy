/**
 Field locks (internal/repository/metadata.go, internal/repository/artwork.go,
 internal/service/metadata.go): what no interleaving of refreshes, edits, locks and unlocks can do
 to a pinned field, and what an edit by hand leaves behind.
 */
module FieldLocks {
  import opened Text
  import opened ArtworkStore
  import opened MetadataRows

  datatype Step =
    | WriteField(item: Item, field: string, source: string, value: Value)
    | WriteGenres(item: Item, source: string, list: seq<string>)
    | WriteImage(item: Item, imageType: string, source: string, img: ItemImage)
    | SetLocked(item: Item, field: string, locked: bool)
    | DeleteImage(item: Item, imageType: string)

  function Effected(columns: Columns, db: Db, s: Step): Effect
  {
    match s
    case WriteField(item, field, source, value) => FieldWritten(columns, db, Cell(item, field), source, value)
    case WriteGenres(item, source, list) => GenresWritten(db, item, source, list)
    case WriteImage(item, imageType, source, img) => ImageWritten(db, Key(item, imageType), source, img)
    case SetLocked(item, field, locked) => LockSet(db, Cell(item, field), locked)
    case DeleteImage(item, imageType) => Effect(ImageDeleted(db, Key(item, imageType)), Written)
  }

  function Run(columns: Columns, db: Db, steps: seq<Step>): Db
  {
    if steps == [] then db else Effected(columns, Run(columns, db, steps[..|steps| - 1]), steps[|steps| - 1]).db
  }

  /** What a field holds, wherever it is stored. */
  datatype Content = Column(v: Value) | List(genres: seq<string>) | Picture(image: Option<Image>)

  function ContentOf(db: Db, cell: Cell): Content
  {
    if cell.field == GENRES then List(if cell.item in db.genres then db.genres[cell.item] else [])
    else if IsImageField(cell.field) then
      var key := Key(cell.item, TypeOf(cell.field));
      Picture(if key in db.images then Some(db.images[key]) else None)
    else Column(if cell in db.cells then db.cells[cell] else Null)
  }

  function TypeOf(field: string): string
  {
    if field == "image_primary" then "primary" else if field == "image_backdrop" then "backdrop" else "logo"
  }

  /** The one field a step is about. */
  function Subject(s: Step): Cell
  {
    match s
    case WriteField(item, field, _, _) => Cell(item, field)
    case WriteGenres(item, _, _) => Cell(item, GENRES)
    case WriteImage(item, imageType, _, _) => FieldOf(item, imageType)
    case SetLocked(item, field, _) => Cell(item, field)
    case DeleteImage(item, imageType) => FieldOf(item, imageType)
  }

  function FieldOf(item: Item, imageType: string): Cell
  {
    match ImageField(imageType)
    case None => Cell(item, "")
    case Some(field) => Cell(item, field)
  }

  ghost predicate SameField(a: Db, b: Db, cell: Cell)
  {
    && ContentOf(a, cell) == ContentOf(b, cell)
    && (cell in a.provenance <==> cell in b.provenance)
    && (cell in a.provenance ==> a.provenance[cell] == b.provenance[cell])
  }

  lemma FieldSparesOthers(columns: Columns, db: Db, written: Cell, source: string, value: Value, cell: Cell)
    requires cell != written
    ensures SameField(FieldWritten(columns, db, written, source, value).db, db, cell)
  {
    hide IsImageField, TypeOf;
  }

  lemma GenresSpareOthers(db: Db, item: Item, source: string, list: seq<string>, cell: Cell)
    requires cell != Cell(item, GENRES)
    ensures SameField(GenresWritten(db, item, source, list).db, db, cell)
  {
    hide IsImageField, TypeOf, Kept;
  }

  lemma ImageSparesOthers(db: Db, key: Key, source: string, img: ItemImage, cell: Cell)
    requires cell != FieldOf(key.item, key.imageType)
    ensures SameField(ImageWritten(db, key, source, img).db, db, cell)
  {
    hide RowOf;
  }

  lemma LockSparesOthers(db: Db, pinned: Cell, locked: bool, cell: Cell)
    requires cell != pinned
    ensures SameField(LockSet(db, pinned, locked).db, db, cell)
  {
    hide IsImageField, TypeOf;
  }

  lemma DeletionSparesOthers(db: Db, key: Key, cell: Cell)
    requires cell != FieldOf(key.item, key.imageType)
    ensures SameField(ImageDeleted(db, key), db, cell)
  {
  }

  /** Fields are written and pinned one by one: no step carries a neighbour along. */
  lemma NeighboursUntouched(columns: Columns, db: Db, s: Step, cell: Cell)
    requires cell != Subject(s)
    ensures SameField(Effected(columns, db, s).db, db, cell)
  {
    hide FieldWritten, GenresWritten, ImageWritten, LockSet, ImageDeleted, SameField, ContentOf, FieldOf;
    match s {
      case WriteField(item, field, source, value) =>
        FieldSparesOthers(columns, db, Cell(item, field), source, value, cell);
      case WriteGenres(item, source, list) => GenresSpareOthers(db, item, source, list, cell);
      case WriteImage(item, imageType, source, img) => ImageSparesOthers(db, Key(item, imageType), source, img, cell);
      case SetLocked(item, field, locked) => LockSparesOthers(db, Cell(item, field), locked, cell);
      case DeleteImage(item, imageType) => DeletionSparesOthers(db, Key(item, imageType), cell);
    }
  }

  /** A write to an unlocked field lands whatever else is locked. */
  lemma UnlockedWriteLands(columns: Columns, db: Db, s: Step)
    requires s.WriteField? || s.WriteGenres? || s.WriteImage?
    requires Effected(columns, db, s).outcome != Failed
    ensures Effected(columns, db, s).outcome == Written <==> !Locked(db, Subject(s))
    ensures !Locked(db, Subject(s)) ==>
      var db' := Effected(columns, db, s).db;
      && db'.provenance[Subject(s)] == Provenance(s.source, false)
      && (s.WriteField? ==> Some(ContentOf(db', Subject(s)).v) == columns(s.field, s.value))
      && (s.WriteGenres? ==> ContentOf(db', Subject(s)) == List(Kept(s.list)))
      && (s.WriteImage? ==> ContentOf(db', Subject(s)) == Picture(Some(RowOf(s.img))))
  {
  }

  lemma RunConcat(columns: Columns, db: Db, steps: seq<Step>, k: nat)
    requires k < |steps|
    ensures Run(columns, db, steps[..k + 1]) == Effected(columns, Run(columns, db, steps[..k]), steps[k]).db
  {
    hide Effected;
    assert steps[..k + 1][..k] == steps[..k];
  }

  lemma {:induction false} LaterSteps(columns: Columns, db: Db, steps: seq<Step>, k: nat, n: nat, cell: Cell)
    requires k <= n <= |steps| && forall i :: k <= i < n ==> Subject(steps[i]) != cell
    ensures SameField(Run(columns, db, steps[..n]), Run(columns, db, steps[..k]), cell)
  {
    hide Effected, ContentOf, Subject, Run;
    if k < n {
      LaterSteps(columns, db, steps, k, n - 1, cell);
      RunConcat(columns, db, steps, n - 1);
      NeighboursUntouched(columns, Run(columns, db, steps[..n - 1]), steps[n - 1], cell);
    }
  }

  /** What a write asks for, when the store takes it. */
  function Asked(columns: Columns, s: Step): Option<Content>
    requires s.WriteField? || s.WriteGenres? || s.WriteImage?
  {
    match s
    case WriteField(_, field, _, value) =>
      (match columns(field, value) case None => None case Some(v) => Some(Column(v)))
    case WriteGenres(_, _, list) => Some(List(Kept(list)))
    case WriteImage(_, _, _, img) => Some(Picture(Some(RowOf(img))))
  }

  /**
   In any interleaving, whatever else is locked: a write that does not fail, to a field that is unlocked
   at that moment, is what the field holds, from that source, until the next step about the same field.
   */
  lemma NeighbourUpdates(columns: Columns, db: Db, steps: seq<Step>, k: nat)
    requires k < |steps| && (steps[k].WriteField? || steps[k].WriteGenres? || steps[k].WriteImage?)
    requires var before := Run(columns, db, steps[..k]);
      !Locked(before, Subject(steps[k])) && Effected(columns, before, steps[k]).outcome != Failed
    requires forall i :: k < i < |steps| ==> Subject(steps[i]) != Subject(steps[k])
    ensures var after, cell := Run(columns, db, steps), Subject(steps[k]);
      && Some(ContentOf(after, cell)) == Asked(columns, steps[k])
      && cell in after.provenance && after.provenance[cell] == Provenance(steps[k].source, false)
  {
    var before := Run(columns, db, steps[..k]);
    UnlockedWriteLands(columns, before, steps[k]);
    UnlockedContent(columns, before, steps[k]);
    hide Effected, ContentOf, Run, Asked, Locked;
    RunConcat(columns, db, steps, k);
    LaterSteps(columns, db, steps, k + 1, |steps|, Subject(steps[k]));
    assert steps[..|steps|] == steps;
  }

  lemma UnlockedContent(columns: Columns, db: Db, s: Step)
    requires s.WriteField? || s.WriteGenres? || s.WriteImage?
    requires Effected(columns, db, s).outcome != Failed && !Locked(db, Subject(s))
    ensures Some(ContentOf(Effected(columns, db, s).db, Subject(s))) == Asked(columns, s)
    ensures Subject(s) in Effected(columns, db, s).db.provenance
  {
    if s.WriteField? {
      ScalarsAreColumns(s.field);
    }
    hide Kept, RowOf;
  }

  ghost predicate Deletes(s: Step, cell: Cell)
  {
    s.DeleteImage? && IsImageField(cell.field) && Subject(s) == cell
  }

  /** What a lock promises at one moment. */
  ghost predicate Pinned(db: Db, cell: Cell, source: string, content: Content, swept: bool)
  {
    && Locked(db, cell) && db.provenance[cell].source == source
    && (ContentOf(db, cell) == content || (swept && ContentOf(db, cell) == Picture(None)))
  }

  lemma LockedStep(columns: Columns, db: Db, s: Step, cell: Cell, source: string, content: Content, swept: bool)
    requires Pinned(db, cell, source, content, swept) && cell.field != ""
    requires s != SetLocked(cell.item, cell.field, false)
    ensures Pinned(Effected(columns, db, s).db, cell, source, content, swept || Deletes(s, cell))
  {
    if cell != Subject(s) {
      hide Effected;
      NeighboursUntouched(columns, db, s, cell);
    }
  }

  /**
   From a lock to the next unlock no interleaving changes the field's value or source, or unlocks it.
   Only clearing an image row whose file is gone may empty it.
   */
  lemma {:induction false} LockHolds(columns: Columns, db: Db, steps: seq<Step>, cell: Cell)
    requires Locked(db, cell) && cell.field != ""
    requires SetLocked(cell.item, cell.field, false) !in steps
    ensures var swept := exists s :: s in steps && Deletes(s, cell);
      Pinned(Run(columns, db, steps), cell, db.provenance[cell].source, ContentOf(db, cell), swept)
  {
    hide Effected, ContentOf, Deletes;
    if steps != [] {
      var init, last := steps[..|steps| - 1], steps[|steps| - 1];
      assert steps == init + [last];
      LockHolds(columns, db, init, cell);
      var swept := exists s :: s in init && Deletes(s, cell);
      LockedStep(columns, Run(columns, db, init), last, cell, db.provenance[cell].source, ContentOf(db, cell), swept);
      assert (exists s :: s in steps && Deletes(s, cell)) <==> swept || Deletes(last, cell);
    }
  }

  // ---- edits by hand ----

  datatype Edit = Edit(field: string, value: Value)

  datatype SetResult = Done | InvalidArgument | NotFound | WriteFailed

  /** What the store keeps of an edit: nothing when the field or the value is not one it takes. */
  function Accepted(columns: Columns, e: Edit): Option<Content>
  {
    if e.field == GENRES then
      if e.value.Listing? then Some(List(Kept(e.value.list))) else None
    else if e.field in SCALARS then
      match columns(e.field, e.value) { case Some(v) => Some(Column(v)) case None => None }
    else None
  }

  /** Unlock, write, lock; the first failure stops it where it is. */
  function Edited(columns: Columns, db: Db, item: Item, e: Edit): (Db, SetResult)
  {
    var unlocked := LockSet(db, Cell(item, e.field), false);
    if unlocked.outcome.Failed? then (unlocked.db, WriteFailed)
    else if e.field == GENRES && !e.value.Listing? then (unlocked.db, InvalidArgument)
    else
      var written :=
        if e.field == GENRES then GenresWritten(unlocked.db, item, MANUAL, e.value.list)
        else FieldWritten(columns, unlocked.db, Cell(item, e.field), MANUAL, e.value);
      if written.outcome.Failed? then (written.db, WriteFailed)
      else
        var pinned := LockSet(written.db, Cell(item, e.field), true);
        (pinned.db, if pinned.outcome.Failed? then WriteFailed else Done)
  }

  /** The first n edits, up to the first that fails. */
  function EditedAll(columns: Columns, db: Db, item: Item, edits: seq<Edit>, n: nat): (Db, SetResult)
    requires n <= |edits|
  {
    if n == 0 then (db, Done)
    else
      var before := EditedAll(columns, db, item, edits, n - 1);
      if before.1 != Done then before else Edited(columns, before.0, item, edits[n - 1])
  }

  function SetSpec(columns: Columns, db: Db, item: Item, edits: seq<Edit>): (Db, SetResult)
  {
    if edits == [] then (db, InvalidArgument)
    else if item !in db.items then (db, NotFound)
    else if exists e :: e in edits && IsImageField(e.field) then (db, InvalidArgument)
    else EditedAll(columns, db, item, edits, |edits|)
  }

  lemma {:induction false} FailureStays(columns: Columns, db: Db, item: Item, edits: seq<Edit>, m: nat, n: nat)
    requires m <= n <= |edits| && EditedAll(columns, db, item, edits, m).1 != Done
    ensures EditedAll(columns, db, item, edits, n) == EditedAll(columns, db, item, edits, m)
  {
    hide Edited;
    if m < n {
      FailureStays(columns, db, item, edits, m, n - 1);
    }
  }

  class MetadataService {
    const repo: MetadataRepository

    constructor (repo: MetadataRepository)
      ensures this.repo == repo
    {
      this.repo := repo;
    }

    method Set(item: Item, edits: seq<Edit>) returns (r: SetResult)
      modifies repo
      ensures (repo.Value(), r) == SetSpec(repo.columns, old(repo.Value()), item, edits)
    {
      hide Edited;
      if |edits| == 0 {
        return InvalidArgument;
      }
      if item !in repo.items {
        return NotFound;
      }
      for i := 0 to |edits|
        invariant repo.Value() == old(repo.Value())
        invariant forall e :: e in edits[..i] ==> !IsImageField(e.field)
      {
        assert edits[..i + 1] == edits[..i] + [edits[i]];
        if IsImageField(edits[i].field) {
          assert edits[i] in edits;
          return InvalidArgument;
        }
      }
      assert edits[..|edits|] == edits;
      assert EditedAll(repo.columns, repo.Value(), item, edits, 0) == (repo.Value(), Done);
      for i := 0 to |edits|
        invariant (repo.Value(), Done) == EditedAll(repo.columns, old(repo.Value()), item, edits, i)
      {
        r := Apply(item, edits[i]);
        EditedNext(repo.columns, old(repo.Value()), item, edits, i + 1);
        if r != Done {
          FailureStays(repo.columns, old(repo.Value()), item, edits, i + 1, |edits|);
          return;
        }
      }
      r := Done;
    }

    method Apply(item: Item, e: Edit) returns (r: SetResult)
      modifies repo
      ensures (repo.Value(), r) == Edited(repo.columns, old(repo.Value()), item, e)
    {
      var o := repo.SetLocked(item, e.field, false);
      if o.Failed? {
        return WriteFailed;
      }
      if e.field == GENRES {
        if !e.value.Listing? {
          return InvalidArgument;
        }
        TriedWhole(repo.Value(), item, MANUAL, e.value.list, Never);
        o := repo.WriteGenres(item, MANUAL, e.value.list, true, Never);
      } else {
        o := repo.WriteField(item, e.field, MANUAL, e.value);
      }
      if o.Failed? {
        return WriteFailed;
      }
      o := repo.SetLocked(item, e.field, true);
      r := if o.Failed? then WriteFailed else Done;
    }
  }

  /** An edit holds: its value is stored, marked as set by hand, and pinned. */
  ghost predicate Holds(columns: Columns, db: Db, item: Item, e: Edit)
  {
    var cell := Cell(item, e.field);
    && Some(ContentOf(db, cell)) == Accepted(columns, e)
    && cell in db.provenance && db.provenance[cell] == Provenance(MANUAL, true)
  }

  /** One edit succeeds exactly when the store takes it, and then it holds. */
  lemma EditHolds(columns: Columns, db: Db, item: Item, e: Edit)
    requires item in db.items
    ensures Edited(columns, db, item, e).1 == Done <==> Accepted(columns, e).Some?
    ensures Edited(columns, db, item, e).1 == Done ==> Holds(columns, Edited(columns, db, item, e).0, item, e)
    ensures Edited(columns, db, item, e).0.items == db.items
  {
    if e.field in SCALARS {
      ScalarsAreColumns(e.field);
    }
    hide IsImageField, TypeOf, Kept;
  }

  lemma ScalarsAreColumns(field: string)
    requires field in SCALARS
    ensures field != GENRES && !IsImageField(field)
  {
  }

  lemma EditSparesOthers(columns: Columns, db: Db, item: Item, e: Edit, cell: Cell)
    requires cell != Cell(item, e.field)
    ensures SameField(Edited(columns, db, item, e).0, db, cell)
  {
    hide FieldWritten, GenresWritten, LockSet, ContentOf;
    var unlocked := LockSet(db, Cell(item, e.field), false).db;
    var written :=
      if e.field == GENRES && e.value.Listing? then GenresWritten(unlocked, item, MANUAL, e.value.list).db
      else FieldWritten(columns, unlocked, Cell(item, e.field), MANUAL, e.value).db;
    LockSparesOthers(db, Cell(item, e.field), false, cell);
    if e.field == GENRES && e.value.Listing? {
      GenresSpareOthers(unlocked, item, MANUAL, e.value.list, cell);
    } else {
      FieldSparesOthers(columns, unlocked, Cell(item, e.field), MANUAL, e.value, cell);
    }
    LockSparesOthers(written, Cell(item, e.field), true, cell);
  }

  /** The last edit of its field among the first n. */
  ghost predicate LastOfField(edits: seq<Edit>, n: nat, i: nat)
    requires i < n <= |edits|
  {
    forall j :: i < j < n ==> edits[j].field != edits[i].field
  }

  lemma {:induction false} EditsHold(columns: Columns, db: Db, item: Item, edits: seq<Edit>, n: nat)
    requires n <= |edits| && item in db.items
    ensures var (db', r) := EditedAll(columns, db, item, edits, n);
      && db'.items == db.items
      && (r == Done <==> forall i :: 0 <= i < n ==> Accepted(columns, edits[i]).Some?)
      && (r == Done ==> forall i :: 0 <= i < n && LastOfField(edits, n, i) ==> Holds(columns, db', item, edits[i]))
  {
    if n > 0 {
      EditsHold(columns, db, item, edits, n - 1);
      var (before, r) := EditedAll(columns, db, item, edits, n - 1);
      hide Edited, EditedAll, Accepted, ContentOf;
      EditHolds(columns, before, item, edits[n - 1]);
      EditedNext(columns, db, item, edits, n);
      var after := Edited(columns, before, item, edits[n - 1]).0;
      if r == Done && Edited(columns, before, item, edits[n - 1]).1 == Done {
        forall i | 0 <= i < n && LastOfField(edits, n, i)
          ensures Holds(columns, after, item, edits[i])
        {
          if i < n - 1 {
            assert LastOfField(edits, n - 1, i);
            EditSparesOthers(columns, before, item, edits[n - 1], Cell(item, edits[i].field));
          }
        }
      }
    }
  }

  lemma EditedNext(columns: Columns, db: Db, item: Item, edits: seq<Edit>, n: nat)
    requires 0 < n <= |edits|
    ensures var before := EditedAll(columns, db, item, edits, n - 1);
      EditedAll(columns, db, item, edits, n) ==
        if before.1 != Done then before else Edited(columns, before.0, item, edits[n - 1])
  {
  }

  /**
   A set nothing interferes with succeeds exactly when there are edits, the item exists and the store
   takes each of them; then every field edited ends with its last edit stored, set by hand and locked.
   */
  lemma SetStoresAndLocks(columns: Columns, db: Db, item: Item, edits: seq<Edit>)
    ensures var (db', r) := SetSpec(columns, db, item, edits);
      && (r == Done <==> edits != [] && item in db.items && forall e :: e in edits ==> Accepted(columns, e).Some?)
      && (r == Done ==> forall i :: 0 <= i < |edits| && LastOfField(edits, |edits|, i) ==>
            Holds(columns, db', item, edits[i]))
  {
    hide EditedAll, Edited, ContentOf;
    if edits != [] && item in db.items {
      EditsHold(columns, db, item, edits, |edits|);
      forall e | e in edits && IsImageField(e.field)
        ensures Accepted(columns, e).None?
      {
      }
      assert (forall e :: e in edits ==> Accepted(columns, e).Some?) <==>
        forall i :: 0 <= i < |edits| ==> Accepted(columns, edits[i]).Some?;
    }
  }

  lemma {:induction false} EditItems(columns: Columns, db: Db, item: Item, edits: seq<Edit>)
    ensures SetSpec(columns, db, item, edits).0.items == db.items
  {
    if edits != [] && item in db.items {
      EditsHold(columns, db, item, edits, |edits|);
    }
  }

  /** What the first refused edit does to its own field. */
  lemma RefusedAt(columns: Columns, db: Db, item: Item, e: Edit)
    requires item in db.items && !IsImageField(e.field) && Accepted(columns, e).None?
    ensures var (db', r) := Edited(columns, db, item, e); var cell := Cell(item, e.field);
      && r != Done
      && ContentOf(db', cell) == ContentOf(db, cell)
      && (e.field == "" ==> db' == db)
      && (e.field != "" ==> cell in db'.provenance && !Locked(db', cell))
  {
    hide IsImageField, TypeOf, Kept;
  }

  lemma {:induction false} EditsSpareOthers(columns: Columns, db: Db, item: Item, edits: seq<Edit>, n: nat, cell: Cell)
    requires n <= |edits| && forall i :: 0 <= i < n ==> cell != Cell(item, edits[i].field)
    ensures SameField(EditedAll(columns, db, item, edits, n).0, db, cell)
  {
    hide Edited, ContentOf;
    if n > 0 {
      EditsSpareOthers(columns, db, item, edits, n - 1, cell);
      EditSparesOthers(columns, EditedAll(columns, db, item, edits, n - 1).0, item, edits[n - 1], cell);
    }
  }

  /** What a field holds once the first n edits are through. */
  ghost predicate HoldsLast(columns: Columns, before: Db, after: Db, item: Item, edits: seq<Edit>, n: nat, cell: Cell)
    requires n <= |edits|
  {
    && (forall i :: 0 <= i < n && LastOfField(edits, n, i) && Cell(item, edits[i].field) == cell ==>
          Some(ContentOf(after, cell)) == Accepted(columns, edits[i]))
    && ((forall i :: 0 <= i < n ==> cell != Cell(item, edits[i].field)) ==>
          ContentOf(after, cell) == ContentOf(before, cell))
  }

  /** A set ends at the first edit the store refuses. */
  lemma RefusedEnds(columns: Columns, db: Db, item: Item, edits: seq<Edit>, k: nat)
    requires k < |edits| && item in db.items && forall e :: e in edits ==> !IsImageField(e.field)
    requires Accepted(columns, edits[k]).None? && forall i :: 0 <= i < k ==> Accepted(columns, edits[i]).Some?
    ensures EditedAll(columns, db, item, edits, k).1 == Done && item in EditedAll(columns, db, item, edits, k).0.items
    ensures SetSpec(columns, db, item, edits) ==
      Edited(columns, EditedAll(columns, db, item, edits, k).0, item, edits[k])
    ensures SetSpec(columns, db, item, edits) == EditedAll(columns, db, item, edits, k + 1)
    ensures SetSpec(columns, db, item, edits).1 != Done
  {
    hide Edited, EditedAll, ContentOf, Accepted, IsImageField, Locked;
    assert edits[k] in edits;
    EditsHold(columns, db, item, edits, k);
    EditedNext(columns, db, item, edits, k + 1);
    RefusedAt(columns, EditedAll(columns, db, item, edits, k).0, item, edits[k]);
    FailureStays(columns, db, item, edits, k + 1, |edits|);
  }

  /**
   The first edit of a list that the store refuses ends the set. The edits before it hold; its own field
   keeps what it then had and has lost its lock; fields not reached are untouched.
   */
  lemma RefusedEditUnlocks(columns: Columns, db: Db, item: Item, edits: seq<Edit>, k: nat)
    requires k < |edits| && item in db.items && forall e :: e in edits ==> !IsImageField(e.field)
    requires Accepted(columns, edits[k]).None? && forall i :: 0 <= i < k ==> Accepted(columns, edits[i]).Some?
    ensures var (db', r) := SetSpec(columns, db, item, edits); var cell := Cell(item, edits[k].field);
      && r != Done
      && (forall i :: 0 <= i < k && LastOfField(edits, k, i) && edits[i].field != edits[k].field ==>
            Holds(columns, db', item, edits[i]))
      && HoldsLast(columns, db, db', item, edits, k, cell)
      && (edits[k].field != "" ==> cell in db'.provenance && !Locked(db', cell))
      && (forall other :: (forall i :: 0 <= i <= k ==> other != Cell(item, edits[i].field)) ==>
            SameField(db', db, other))
  {
    hide Edited, EditedAll, ContentOf, Accepted, IsImageField, Locked, SetSpec;
    var cell := Cell(item, edits[k].field);
    var before := EditedAll(columns, db, item, edits, k).0;
    var db' := SetSpec(columns, db, item, edits).0;
    RefusedEnds(columns, db, item, edits, k);
    EditsHold(columns, db, item, edits, k);
    assert edits[k] in edits;
    RefusedAt(columns, before, item, edits[k]);
    forall i | 0 <= i < k && LastOfField(edits, k, i) && edits[i].field != edits[k].field
      ensures Holds(columns, db', item, edits[i])
    {
      EditSparesOthers(columns, before, item, edits[k], Cell(item, edits[i].field));
    }
    if forall i :: 0 <= i < k ==> cell != Cell(item, edits[i].field) {
      EditsSpareOthers(columns, db, item, edits, k, cell);
    }
    forall other | forall i :: 0 <= i <= k ==> other != Cell(item, edits[i].field)
      ensures SameField(db', db, other)
    {
      EditsSpareOthers(columns, db, item, edits, k + 1, other);
    }
  }

  /** A field that nothing was ever stored in counts as set by hand once it is locked or unlocked. */
  lemma FirstLockIsManual(columns: Columns, db: Db, item: Item, field: string, locked: bool)
    requires item in db.items && field != ""
    ensures var s := SetLocked(item, field, locked); var after := Effected(columns, db, s).db;
      && Cell(item, field) in after.provenance
      && after.provenance[Cell(item, field)] ==
         Provenance(if Cell(item, field) in db.provenance then db.provenance[Cell(item, field)].source else "manual",
                    locked)
      && Effected(columns, db, s).outcome == Written
  {
  }
}
