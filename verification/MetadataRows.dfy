/**
 The managed metadata rows (internal/repository/metadata.go, internal/repository/artwork.go): typed
 columns, genres, image rows and, for each field of an item, who last claimed it and whether refreshes
 are kept off it. Each repository method is one step; a statement the database refuses leaves
 what the statements before it did. Timestamps are left out.
 */
module MetadataRows {
  import opened Text
  import opened ArtworkStore

  type Item = nat

  datatype Value = Null | Words(s: string) | Score(r: real) | Day(d: int) | Listing(list: seq<string>)

  /** What a column makes of a value: nothing when its type or a check refuses it. */
  type Columns = (string, Value) -> Option<Value>

  datatype Cell = Cell(item: Item, field: string)

  datatype Provenance = Provenance(source: string, locked: bool)

  /** An image row: what the provider does not have, or where the bytes are. */
  datatype Image =
    | Negative
    | Held(path: Path, tag: string, contentType: string,
           width: Option<int>, height: Option<int>, sourceUrl: Option<string>)

  datatype ItemImage =
    | NoImage
    | ItemImage(path: Path, tag: string, contentType: string, width: int, height: int, sourceUrl: string)

  /** `fetched` are the items with a metadata row; a missing cell is null. */
  datatype Db = Db(
    items: set<Item>, fetched: set<Item>, cells: map<Cell, Value>, genres: map<Item, seq<string>>,
    provenance: map<Cell, Provenance>, images: map<Key, Image>)

  const SCALARS: set<string> := {"overview", "community_rating", "official_rating", "premiere_date"}
  const GENRES := "genres"
  const MANUAL := "manual"
  const IMAGE_TYPES: seq<string> := ["primary", "backdrop", "logo"]

  function ImageField(imageType: string): Option<string>
  {
    if imageType == "primary" then Some("image_primary")
    else if imageType == "backdrop" then Some("image_backdrop")
    else if imageType == "logo" then Some("image_logo")
    else None
  }

  predicate IsImageField(field: string)
  {
    field == "image_primary" || field == "image_backdrop" || field == "image_logo"
  }

  predicate Locked(db: Db, cell: Cell)
  {
    cell in db.provenance && db.provenance[cell].locked
  }

  function Claimed(db: Db, cell: Cell, source: string): Db
  {
    db.(provenance := db.provenance[cell := Provenance(source, false)])
  }

  datatype Outcome = Written | LockRefused | Failed

  datatype Effect = Effect(db: Db, outcome: Outcome)

  /** The metadata row comes first, then the claim, then the value. */
  function FieldWritten(columns: Columns, db: Db, cell: Cell, source: string, value: Value): Effect
  {
    if cell.field !in SCALARS || cell.item !in db.items then Effect(db, Failed)
    else
      var db1 := db.(fetched := db.fetched + {cell.item});
      if source == "" then Effect(db1, Failed)
      else if Locked(db1, cell) then Effect(db1, LockRefused)
      else
        var db2 := Claimed(db1, cell, source);
        match columns(cell.field, value)
        case None => Effect(db2, Failed)
        case Some(v) => Effect(db2.(cells := db2.cells[cell := v]), Written)
  }

  /** The genres kept of a list: empty ones are dropped, and of equal ones the first stays. */
  function Kept(list: seq<string>): seq<string>
  {
    if list == [] then []
    else
      var init, last := Kept(list[..|list| - 1]), list[|list| - 1];
      if last == "" || last in init then init else init + [last]
  }

  function GenresWritten(db: Db, item: Item, source: string, list: seq<string>): Effect
  {
    if item !in db.items || source == "" then Effect(db, Failed)
    else if Locked(db, Cell(item, GENRES)) then Effect(db, LockRefused)
    else
      var db1 := Claimed(db, Cell(item, GENRES), source);
      Effect(db1.(genres := db1.genres[item := Kept(list)]), Written)
  }

  /** How many entries are dealt with before an insert fails. */
  function Through(list: seq<string>, fails: nat -> bool): (n: nat)
    ensures n <= |list| && (n < |list| ==> list[n] != "" && fails(n))
    ensures forall i :: 0 <= i < n ==> list[i] == "" || !fails(i)
  {
    if list == [] then 0
    else
      var last := |list| - 1;
      var n := Through(list[..last], fails);
      if n < last || (list[last] != "" && fails(last)) then n else |list|
  }

  lemma ThroughNext(list: seq<string>, fails: nat -> bool, i: nat)
    requires i < |list| && i <= Through(list, fails)
    ensures i == Through(list, fails) <==> list[i] != "" && fails(i)
  {
  }

  /** Writing genres when statements may fail: what the entries before the failure make of the list stays. */
  function GenresTried(db: Db, item: Item, source: string, list: seq<string>, clears: bool,
                       fails: nat -> bool): Effect
  {
    if item !in db.items || source == "" || Locked(db, Cell(item, GENRES)) then GenresWritten(db, item, source, list)
    else
      var db1 := Claimed(db, Cell(item, GENRES), source);
      var n := Through(list, fails);
      if !clears then Effect(db1, Failed)
      else Effect(db1.(genres := db1.genres[item := Kept(list[..n])]), if n < |list| then Failed else Written)
  }

  predicate Never(i: nat)
  {
    false
  }

  lemma TriedWhole(db: Db, item: Item, source: string, list: seq<string>, fails: nat -> bool)
    requires forall i :: !fails(i)
    ensures GenresTried(db, item, source, list, true, fails) == GenresWritten(db, item, source, list)
  {
    hide Kept;
    assert list[..|list|] == list;
  }

  function Positive(n: int): Option<int>
  {
    if n > 0 then Some(n) else None
  }

  /** A negative has none of the columns, a stored image all that are known. */
  function RowOf(img: ItemImage): Image
  {
    match img
    case NoImage => Negative
    case ItemImage(path, tag, contentType, width, height, sourceUrl) =>
      Held(path, tag, contentType, Positive(width), Positive(height), NonEmptyString(sourceUrl))
  }

  function ImageWritten(db: Db, key: Key, source: string, img: ItemImage): Effect
  {
    match ImageField(key.imageType)
    case None => Effect(db, Failed)
    case Some(field) =>
      if key.item !in db.items || source == "" then Effect(db, Failed)
      else if Locked(db, Cell(key.item, field)) then Effect(db, LockRefused)
      else
        var db1 := Claimed(db, Cell(key.item, field), source);
        Effect(db1.(images := db1.images[key := RowOf(img)]), Written)
  }

  /** A field never written before counts as set by hand; otherwise its source stays. */
  function LockSet(db: Db, cell: Cell, locked: bool): Effect
  {
    if cell.item !in db.items || cell.field == "" then Effect(db, Failed)
    else
      var source := if cell in db.provenance then db.provenance[cell].source else MANUAL;
      Effect(db.(provenance := db.provenance[cell := Provenance(source, locked)]), Written)
  }

  function ImageDeleted(db: Db, key: Key): Db
  {
    db.(images := db.images - {key})
  }

  lemma {:induction false} KeptMembers(list: seq<string>)
    ensures forall g :: g in Kept(list) <==> g in list && g != ""
    ensures forall i, j :: 0 <= i < j < |Kept(list)| ==> Kept(list)[i] != Kept(list)[j]
  {
    if list != [] {
      assert list == list[..|list| - 1] + [list[|list| - 1]];
      KeptMembers(list[..|list| - 1]);
    }
  }

  /** The first place a genre stands in a list. */
  function FirstAt(list: seq<string>, g: string): (i: nat)
    requires g in list
    ensures i < |list| && list[i] == g && g !in list[..i]
  {
    if list[0] == g then 0 else 1 + FirstAt(list[1..], g)
  }

  lemma {:induction false} FirstAtPrefix(list: seq<string>, n: nat, g: string)
    requires n <= |list| && g in list[..n]
    ensures FirstAt(list, g) == FirstAt(list[..n], g) < n
  {
    if list[0] != g {
      assert list[..n][1..] == list[1..][..n - 1];
      FirstAtPrefix(list[1..], n - 1, g);
    }
  }

  /** The kept genres stand in the provider's order. */
  lemma {:induction false} KeptInOrder(list: seq<string>, i: nat, j: nat)
    requires i < j < |Kept(list)|
    ensures Kept(list)[i] in list && Kept(list)[j] in list &&
      FirstAt(list, Kept(list)[i]) < FirstAt(list, Kept(list)[j])
  {
    var n := |list| - 1;
    var kept := Kept(list);
    KeptMembers(list);
    KeptMembers(list[..n]);
    assert kept[i] in kept && kept[j] in kept && kept[i] in Kept(list[..n]);
    FirstAtPrefix(list, n, kept[i]);
    if j < |Kept(list[..n])| {
      KeptInOrder(list[..n], i, j);
      FirstAtPrefix(list, n, kept[j]);
    } else {
      assert kept[j] !in list[..n];
    }
  }

  class MetadataRepository {
    const columns: Columns
    var items: set<Item>
    var fetched: set<Item>
    var cells: map<Cell, Value>
    var genres: map<Item, seq<string>>
    var provenance: map<Cell, Provenance>
    var images: map<Key, Image>

    constructor (columns: Columns, items: set<Item>)
      ensures this.columns == columns && Value() == Db(items, {}, map[], map[], map[], map[])
    {
      this.columns := columns;
      this.items, fetched, cells, genres, provenance, images := items, {}, map[], map[], map[], map[];
    }

    function Value(): Db
      reads this
    {
      Db(items, fetched, cells, genres, provenance, images)
    }

    /** Take a field for a source, unless it is pinned; no other write asks about locks. */
    method ClaimField(cell: Cell, source: string) returns (claimed: bool)
      requires cell.item in items && source != ""
      modifies this`provenance
      ensures claimed <==> !Locked(old(Value()), cell)
      ensures Value() == if claimed then Claimed(old(Value()), cell, source) else old(Value())
    {
      claimed := !(cell in provenance && provenance[cell].locked);
      if claimed {
        provenance := provenance[cell := Provenance(source, false)];
      }
    }

    method WriteField(item: Item, field: string, source: string, value: Value) returns (r: Outcome)
      modifies this
      ensures Effect(Value(), r) == FieldWritten(columns, old(Value()), Cell(item, field), source, value)
    {
      if field !in SCALARS || item !in items {
        return Failed;
      }
      fetched := fetched + {item};
      if source == "" {
        return Failed;
      }
      var cell := Cell(item, field);
      var claimed := ClaimField(cell, source);
      if !claimed {
        return LockRefused;
      }
      var stored := columns(field, value);
      if stored.None? {
        return Failed;
      }
      cells := cells[cell := stored.value];
      r := Written;
    }

    /** The clearing, or the insert of an entry, may fail; each statement before it has committed. */
    method WriteGenres(item: Item, source: string, list: seq<string>, clears: bool,
                       fails: nat -> bool) returns (r: Outcome)
      modifies this
      ensures Effect(Value(), r) == GenresTried(old(Value()), item, source, list, clears, fails)
    {
      if item !in items || source == "" {
        return Failed;
      }
      var claimed := ClaimField(Cell(item, GENRES), source);
      if !claimed {
        return LockRefused;
      }
      if !clears {
        return Failed;
      }
      genres := genres[item := []];
      for i := 0 to |list|
        invariant i <= Through(list, fails)
        invariant Value() ==
          Claimed(old(Value()), Cell(item, GENRES), source).(genres := old(genres)[item := Kept(list[..i])])
      {
        assert list[..i + 1][..i] == list[..i];
        ThroughNext(list, fails, i);
        var genre := list[i];
        if genre == "" {
          continue;
        }
        if fails(i) {
          return Failed;
        }
        if genre !in genres[item] {
          genres := genres[item := genres[item] + [genre]];
        }
      }
      assert list[..|list|] == list;
      r := Written;
    }

    method WriteImage(item: Item, imageType: string, source: string, img: ItemImage) returns (r: Outcome)
      modifies this
      ensures Effect(Value(), r) == ImageWritten(old(Value()), Key(item, imageType), source, img)
    {
      var field := ImageField(imageType);
      if field.None? || item !in items || source == "" {
        return Failed;
      }
      var claimed := ClaimField(Cell(item, field.value), source);
      if !claimed {
        return LockRefused;
      }
      var row := Negative;
      if img.ItemImage? {
        row := Held(img.path, img.tag, img.contentType, None, None, None);
        if img.sourceUrl != "" {
          row := row.(sourceUrl := Some(img.sourceUrl));
        }
        if img.width > 0 {
          row := row.(width := Some(img.width));
        }
        if img.height > 0 {
          row := row.(height := Some(img.height));
        }
      }
      images := images[Key(item, imageType) := row];
      r := Written;
    }

    method SetLocked(item: Item, field: string, locked: bool) returns (r: Outcome)
      modifies this
      ensures Effect(Value(), r) == LockSet(old(Value()), Cell(item, field), locked)
    {
      if item !in items || field == "" {
        return Failed;
      }
      var cell := Cell(item, field);
      if cell in provenance {
        provenance := provenance[cell := provenance[cell].(locked := locked)];
      } else {
        provenance := provenance[cell := Provenance(MANUAL, locked)];
      }
      r := Written;
    }

    method DeleteImage(item: Item, imageType: string)
      modifies this
      ensures Value() == ImageDeleted(old(Value()), Key(item, imageType))
    {
      images := images - {Key(item, imageType)};
    }
  }
}
