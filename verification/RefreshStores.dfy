/**
 What a refresh stores (internal/service/metadata.go, internal/service/artwork.go), in terms of the tables and
 the provider's answers alone: fields and genres, image rows and their files, and the counts.
 */
module RefreshStores {
  import opened Text
  import opened ArtworkStore
  import opened MetadataRows
  import opened Refresh
  import Lists

  // ---- what an answer knows, and what the tables hold ----

  const OVERVIEW := "overview"
  const RATING := "community_rating"
  const CERTIFICATE := "official_rating"
  const RELEASE := "premiere_date"

  /** The value an answer has for a scalar field: a text that is not empty, a number or a day that is there. */
  ghost predicate Knows(md: Movie, field: string, v: Value)
  {
    || (field == OVERVIEW && md.overview != "" && v == Words(md.overview))
    || (field == RATING && md.communityRating.Some? && v == Score(md.communityRating.value))
    || (field == CERTIFICATE && md.officialRating != "" && v == Words(md.officialRating))
    || (field == RELEASE && md.releaseDate.Some? && v == Day(md.releaseDate.value))
  }

  ghost predicate IsKnown(md: Movie, field: string)
  {
    if field == GENRES then md.genres != [] else exists v :: Knows(md, field, v)
  }

  ghost predicate Pinned(db: Db, item: Item, field: string)
  {
    var cell := Cell(item, field);
    cell in db.provenance && db.provenance[cell].locked
  }

  /** A cell's value, source and lock are the same. */
  ghost predicate SameCell(a: Db, b: Db, cell: Cell)
  {
    && (cell in b.cells <==> cell in a.cells) && (cell in a.cells ==> b.cells[cell] == a.cells[cell])
    && (cell in b.provenance <==> cell in a.provenance)
    && (cell in a.provenance ==> b.provenance[cell] == a.provenance[cell])
  }

  ghost predicate SameGenres(a: Db, b: Db, item: Item)
  {
    (item in b.genres <==> item in a.genres) && (item in a.genres ==> b.genres[item] == a.genres[item])
  }

  /** A known value that no lock keeps out is stored, under the provider's source; any other field stays. */
  ghost predicate ScalarStored(cfg: Config, a: Db, b: Db, item: Item, md: Movie, field: string)
  {
    var cell := Cell(item, field);
    if IsKnown(md, field) && !Pinned(a, item, field) then
      && cell in b.cells && cell in b.provenance && b.provenance[cell] == Provenance(cfg.source, false)
      && forall v :: Knows(md, field, v) ==> cfg.columns(field, v) == Some(b.cells[cell])
    else SameCell(a, b, cell)
  }

  /** The members of a list that are not empty, each once, in the order of first mention. */
  ghost predicate Listed(list: seq<string>, kept: seq<string>)
  {
    && (forall g :: g in kept <==> g in list && g != "")
    && (forall i, j :: 0 <= i < j < |kept| ==> kept[i] != kept[j])
    && (forall i, j :: 0 <= i < j < |kept| ==> EarlierIn(list, kept[i], kept[j]))
  }

  /** The one is mentioned before the other is for the first time. */
  ghost predicate EarlierIn(list: seq<string>, g: string, h: string)
  {
    exists a :: 0 <= a < |list| && list[a] == g && h !in list[..a + 1]
  }

  ghost predicate GenresStored(cfg: Config, a: Db, b: Db, item: Item, md: Movie)
  {
    var cell := Cell(item, GENRES);
    if md.genres != [] && !Pinned(a, item, GENRES) then
      && item in b.genres && Listed(md.genres, b.genres[item])
      && cell in b.provenance && b.provenance[cell] == Provenance(cfg.source, false)
    else SameGenres(a, b, item) && SameCell(a, b, cell)
  }

  ghost predicate AnswerStored(cfg: Config, a: Db, b: Db, item: Item, md: Movie)
  {
    && ScalarStored(cfg, a, b, item, md, OVERVIEW) && ScalarStored(cfg, a, b, item, md, RATING)
    && ScalarStored(cfg, a, b, item, md, CERTIFICATE) && ScalarStored(cfg, a, b, item, md, RELEASE)
    && GenresStored(cfg, a, b, item, md)
  }

  /** One if a known field is locked. */
  ghost function Refused(db: Db, item: Item, md: Movie, field: string): nat
  {
    if IsKnown(md, field) && Pinned(db, item, field) then 1 else 0
  }

  ghost function RefusedCount(db: Db, item: Item, md: Movie): nat
  {
    Refused(db, item, md, OVERVIEW) + Refused(db, item, md, RATING) + Refused(db, item, md, CERTIFICATE)
    + Refused(db, item, md, RELEASE) + Refused(db, item, md, GENRES)
  }

  /** A known value that no lock keeps out and the column does not take. */
  ghost predicate Rejected(cfg: Config, db: Db, item: Item, md: Movie, field: string)
  {
    !Pinned(db, item, field) && exists v :: Knows(md, field, v) && cfg.columns(field, v).None?
  }

  ghost predicate AnyRejected(cfg: Config, db: Db, item: Item, md: Movie)
  {
    || Rejected(cfg, db, item, md, OVERVIEW) || Rejected(cfg, db, item, md, RATING)
    || Rejected(cfg, db, item, md, CERTIFICATE) || Rejected(cfg, db, item, md, RELEASE)
  }

  // ---- the fields of one item ----

  /** Everything but one cell of one item is the same, its metadata row apart. */
  ghost predicate ButFor(a: Db, b: Db, cell: Cell)
  {
    && (forall other :: other != cell ==> SameCell(a, b, other))
    && b.genres == a.genres && b.images == a.images && b.items == a.items
  }

  lemma PutEffect(cfg: Config, p: Storing, item: Item, field: string, value: Option<Value>)
    requires cfg.source != "" && item in p.db.items && field in SCALARS && !p.failed
    ensures var q, cell := Put(cfg, p, item, field, value), Cell(item, field);
      && ButFor(p.db, q.db, cell)
      && (q.failed <==> value.Some? && !Pinned(p.db, item, field) && cfg.columns(field, value.value).None?)
      && (!q.failed ==>
            && q.skipped == p.skipped + (if value.Some? && Pinned(p.db, item, field) then 1 else 0)
            && if value.Some? && !Pinned(p.db, item, field) then
                 && cell in q.db.cells && Some(q.db.cells[cell]) == cfg.columns(field, value.value)
                 && cell in q.db.provenance && q.db.provenance[cell] == Provenance(cfg.source, false)
               else SameCell(p.db, q.db, cell))
  {
  }

  /** A value put for a field is the answer's. */
  lemma KnownValue(md: Movie)
    ensures forall v :: Knows(md, OVERVIEW, v) <==> WordsOf(md.overview) == Some(v)
    ensures forall v :: Knows(md, RATING, v) <==> ScoreOf(md.communityRating) == Some(v)
    ensures forall v :: Knows(md, CERTIFICATE, v) <==> WordsOf(md.officialRating) == Some(v)
    ensures forall v :: Knows(md, RELEASE, v) <==> DayOf(md.releaseDate) == Some(v)
  {
  }

  ghost predicate ValueFor(md: Movie, field: string, value: Option<Value>)
  {
    field != GENRES && forall v :: Knows(md, field, v) <==> value == Some(v)
  }

  /** The state of a run of writes that have not failed, against the tables before it. */
  ghost predicate Agrees(a: Db, b: Db, item: Item, done: set<string>)
  {
    && b.items == a.items && b.images == a.images && b.genres == a.genres
    && forall cell: Cell :: !(cell.item == item && cell.field in done) ==> SameCell(a, b, cell)
  }

  /** One more field. */
  lemma FieldNext(cfg: Config, a: Db, p: Storing, item: Item, md: Movie, done: set<string>, field: string,
                  value: Option<Value>)
    requires cfg.source != "" && item in a.items && field in SCALARS && field !in done && ValueFor(md, field, value)
    requires !p.failed && Agrees(a, p.db, item, done)
    ensures var q := Put(cfg, p, item, field, value);
      && (q.failed <==> Rejected(cfg, a, item, md, field))
      && Agrees(a, q.db, item, done + {field})
      && (!q.failed ==>
            && q.skipped == p.skipped + Refused(a, item, md, field)
            && ScalarStored(cfg, a, q.db, item, md, field)
            && forall f :: f in done && ScalarStored(cfg, a, p.db, item, md, f) ==>
                 ScalarStored(cfg, a, q.db, item, md, f))
  {
    hide Put, Knows;
    var q := Put(cfg, p, item, field, value);
    PutEffect(cfg, p, item, field, value);
    AgreesNext(a, p.db, q.db, item, done, field);
    assert SameCell(a, p.db, Cell(item, field));
    assert IsKnown(md, field) <==> value.Some?;
    hide Agrees, ButFor;
    forall f | f in done && ScalarStored(cfg, a, p.db, item, md, f)
      ensures ScalarStored(cfg, a, q.db, item, md, f)
    {
      OtherCell(p.db, q.db, Cell(item, field), Cell(item, f));
      ScalarCarries(cfg, a, p.db, q.db, item, md, f);
    }
  }

  lemma AgreesNext(a: Db, b: Db, c: Db, item: Item, done: set<string>, field: string)
    requires Agrees(a, b, item, done) && ButFor(b, c, Cell(item, field))
    ensures Agrees(a, c, item, done + {field})
  {
    hide SameCell;
    forall cell: Cell | !(cell.item == item && cell.field in done + {field})
      ensures SameCell(a, c, cell)
    {
      assert cell != Cell(item, field);
      CellsCarry(a, b, c, cell);
    }
  }

  lemma OtherCell(a: Db, b: Db, cell: Cell, other: Cell)
    requires ButFor(a, b, cell) && other != cell
    ensures SameCell(a, b, other)
  {
    hide SameCell;
  }

  lemma FailedStays(cfg: Config, p: Storing, item: Item, field: string, value: Option<Value>)
    requires p.failed
    ensures Put(cfg, p, item, field, value) == p
  {
  }

  lemma FieldNames()
    ensures {OVERVIEW, RATING, CERTIFICATE, RELEASE} <= SCALARS && GENRES !in SCALARS
    ensures OVERVIEW != RATING && OVERVIEW != CERTIFICATE && OVERVIEW != RELEASE
    ensures RATING != CERTIFICATE && RATING != RELEASE && CERTIFICATE != RELEASE
  {
  }

  lemma AnswerValues(md: Movie)
    ensures ValueFor(md, OVERVIEW, WordsOf(md.overview)) && ValueFor(md, RATING, ScoreOf(md.communityRating))
    ensures ValueFor(md, CERTIFICATE, WordsOf(md.officialRating)) && ValueFor(md, RELEASE, DayOf(md.releaseDate))
  {
    KnownValue(md);
    FieldNames();
    hide Knows;
  }

  /** The four scalars, up to the first the column does not take. */
  lemma ScalarsExactly(cfg: Config, db: Db, item: Item, md: Movie)
    requires cfg.source != "" && item in db.items
    ensures var p := ScalarsStored(cfg, db, item, md);
      && (p.failed <==> AnyRejected(cfg, db, item, md))
      && Agrees(db, p.db, item, {OVERVIEW, RATING, CERTIFICATE, RELEASE})
      && (!p.failed ==>
            && p.skipped == Refused(db, item, md, OVERVIEW) + Refused(db, item, md, RATING)
                            + Refused(db, item, md, CERTIFICATE) + Refused(db, item, md, RELEASE)
            && ScalarStored(cfg, db, p.db, item, md, OVERVIEW) && ScalarStored(cfg, db, p.db, item, md, RATING)
            && ScalarStored(cfg, db, p.db, item, md, CERTIFICATE) && ScalarStored(cfg, db, p.db, item, md, RELEASE))
  {
    hide Put, Agrees, ScalarStored, Refused, Rejected, ValueFor, WordsOf, ScoreOf, DayOf;
    FieldNames();
    AnswerValues(md);
    NothingDone(db, item);
    var p0 := Storing(db, 0, false);
    var p1 := Put(cfg, p0, item, OVERVIEW, WordsOf(md.overview));
    var p2 := Put(cfg, p1, item, RATING, ScoreOf(md.communityRating));
    var p3 := Put(cfg, p2, item, CERTIFICATE, WordsOf(md.officialRating));
    FieldNext(cfg, db, p0, item, md, {}, OVERVIEW, WordsOf(md.overview));
    MoreDone(db, p1.db, item, {} + {OVERVIEW}, {OVERVIEW});
    if p1.failed {
      FailedStays(cfg, p1, item, RATING, ScoreOf(md.communityRating));
    } else {
      FieldNext(cfg, db, p1, item, md, {OVERVIEW}, RATING, ScoreOf(md.communityRating));
    }
    MoreDone(db, p2.db, item, if p1.failed then {OVERVIEW} else {OVERVIEW} + {RATING}, {OVERVIEW, RATING});
    if p2.failed {
      FailedStays(cfg, p2, item, CERTIFICATE, WordsOf(md.officialRating));
    } else {
      FieldNext(cfg, db, p2, item, md, {OVERVIEW, RATING}, CERTIFICATE, WordsOf(md.officialRating));
    }
    var three := {OVERVIEW, RATING, CERTIFICATE};
    MoreDone(db, p3.db, item, if p2.failed then {OVERVIEW, RATING} else {OVERVIEW, RATING} + {CERTIFICATE}, three);
    if p3.failed {
      FailedStays(cfg, p3, item, RELEASE, DayOf(md.releaseDate));
    } else {
      FieldNext(cfg, db, p3, item, md, three, RELEASE, DayOf(md.releaseDate));
    }
    MoreDone(db, ScalarsStored(cfg, db, item, md).db, item, if p3.failed then three else three + {RELEASE},
             {OVERVIEW, RATING, CERTIFICATE, RELEASE});
  }

  lemma NothingDone(db: Db, item: Item)
    ensures Agrees(db, db, item, {})
  {
  }

  lemma MoreDone(a: Db, b: Db, item: Item, done: set<string>, more: set<string>)
    requires Agrees(a, b, item, done) && done <= more
    ensures Agrees(a, b, item, more)
  {
    hide SameCell;
  }

  // ---- genres ----

  lemma KeptListed(list: seq<string>)
    ensures Listed(list, Kept(list))
  {
    hide Kept;
    KeptMembers(list);
    forall i, j | 0 <= i < j < |Kept(list)|
      ensures EarlierIn(list, Kept(list)[i], Kept(list)[j])
    {
      KeptInOrder(list, i, j);
      assert Kept(list)[i] in Kept(list) && Kept(list)[j] in Kept(list);
      FirstMentions(list, Kept(list)[i], Kept(list)[j]);
    }
  }

  lemma FirstMentions(list: seq<string>, g: string, h: string)
    requires g in list && h in list && FirstAt(list, g) < FirstAt(list, h)
    ensures EarlierIn(list, g, h)
  {
    hide FirstAt;
    var a := FirstAt(list, g);
    assert list[a] == g;
    assert forall i :: 0 <= i <= a ==> list[..FirstAt(list, h)][i] == list[i];
  }

  lemma GenresEffect(cfg: Config, p: Storing, item: Item, md: Movie)
    requires cfg.source != "" && item in p.db.items && !p.failed
    ensures var q := PutGenres(cfg, p, item, md.genres);
      && !q.failed && q.skipped == p.skipped + Refused(p.db, item, md, GENRES)
      && GenresStored(cfg, p.db, q.db, item, md)
      && q.db.items == p.db.items && q.db.images == p.db.images
      && (forall cell :: cell != Cell(item, GENRES) ==> SameCell(p.db, q.db, cell))
      && (forall other :: other != item ==> SameGenres(p.db, q.db, other))
  {
    hide Kept, Listed;
    KeptListed(md.genres);
  }

  /** What the fields of one answer do not touch: other items, other fields, images. */
  ghost predicate FieldsApart(a: Db, b: Db, item: Item)
  {
    && b.items == a.items && b.images == a.images
    && (forall cell: Cell :: cell.item != item || cell.field !in {OVERVIEW, RATING, CERTIFICATE, RELEASE, GENRES} ==>
          SameCell(a, b, cell))
    && (forall other :: other != item ==> SameGenres(a, b, other))
  }

  /**
   Storing an answer fails exactly when a value that it knows and no lock keeps out is one that its column
   refuses. Otherwise every value it knows and no lock keeps out is stored, under the provider's source;
   unknown and locked ones stay; the count is that of the known, locked ones; nothing else is touched.
   */
  lemma FieldsStoredExactly(cfg: Config, db: Db, item: Item, md: Movie)
    requires cfg.source != "" && item in db.items
    ensures var p := FieldsStored(cfg, db, item, md);
      && (p.failed <==> AnyRejected(cfg, db, item, md))
      && FieldsApart(db, p.db, item)
      && (!p.failed ==> p.skipped == RefusedCount(db, item, md) && AnswerStored(cfg, db, p.db, item, md))
  {
    hide ScalarsStored, PutGenres, AnyRejected, Refused, Listed, Knows, IsKnown;
    FieldNames();
    ScalarsExactly(cfg, db, item, md);
    var p := ScalarsStored(cfg, db, item, md);
    if p.failed {
      GenresAfterFailure(cfg, p, item, md);
    } else {
      var q := FieldsStored(cfg, db, item, md);
      GenresEffect(cfg, p, item, md);
      assert SameCell(db, p.db, Cell(item, GENRES));
      SameRefusal(db, p.db, item, md);
      hide SameCell, SameGenres, ScalarStored, GenresStored;
      ApartNext(db, p.db, q.db, item);
      ScalarCarries(cfg, db, p.db, q.db, item, md, OVERVIEW);
      ScalarCarries(cfg, db, p.db, q.db, item, md, RATING);
      ScalarCarries(cfg, db, p.db, q.db, item, md, CERTIFICATE);
      ScalarCarries(cfg, db, p.db, q.db, item, md, RELEASE);
      GenresCarry(cfg, db, p.db, q.db, item, md);
    }
  }

  lemma ApartNext(a: Db, b: Db, c: Db, item: Item)
    requires Agrees(a, b, item, {OVERVIEW, RATING, CERTIFICATE, RELEASE})
    requires c.items == b.items && c.images == b.images
    requires forall cell :: cell != Cell(item, GENRES) ==> SameCell(b, c, cell)
    requires forall other :: other != item ==> SameGenres(b, c, other)
    ensures FieldsApart(a, c, item)
  {
    hide SameCell, SameGenres;
    forall cell: Cell | cell.item != item || cell.field !in {OVERVIEW, RATING, CERTIFICATE, RELEASE, GENRES}
      ensures SameCell(a, c, cell)
    {
      assert cell != Cell(item, GENRES);
      CellsCarry(a, b, c, cell);
    }
    forall other | other != item
      ensures SameGenres(a, c, other)
    {
      GenresAlike(a, b, c, other);
    }
  }

  lemma CellsCarry(a: Db, b: Db, c: Db, cell: Cell)
    requires SameCell(a, b, cell) && SameCell(b, c, cell)
    ensures SameCell(a, c, cell)
  {
  }

  lemma GenresAlike(a: Db, b: Db, c: Db, item: Item)
    requires b.genres == a.genres && SameGenres(b, c, item)
    ensures SameGenres(a, c, item)
  {
  }

  lemma ScalarCarries(cfg: Config, a: Db, b: Db, c: Db, item: Item, md: Movie, field: string)
    requires ScalarStored(cfg, a, b, item, md, field) && SameCell(b, c, Cell(item, field))
    ensures ScalarStored(cfg, a, c, item, md, field)
  {
    hide Knows, IsKnown;
  }

  lemma GenresCarry(cfg: Config, a: Db, b: Db, c: Db, item: Item, md: Movie)
    requires SameCell(a, b, Cell(item, GENRES)) && b.genres == a.genres && GenresStored(cfg, b, c, item, md)
    ensures GenresStored(cfg, a, c, item, md)
  {
    hide Listed;
  }

  lemma GenresAfterFailure(cfg: Config, p: Storing, item: Item, md: Movie)
    requires p.failed
    ensures PutGenres(cfg, p, item, md.genres) == p
  {
  }

  lemma SameRefusal(a: Db, b: Db, item: Item, md: Movie)
    requires SameCell(a, b, Cell(item, GENRES))
    ensures Refused(a, item, md, GENRES) == Refused(b, item, md, GENRES)
  {
  }

  // ---- one image ----

  /** The bytes arrive whole, of a type the store knows, and no system call fails. */
  ghost predicate Delivered(cfg: Config, env: Env, key: Key)
  {
    var r := env.image(key);
    && r.Response? && ExtensionFor(cfg.letters, r.contentType).Some?
    && !r.body.fails && 0 < |r.body.data| <= cfg.max && env.fault(key).NoFault?
  }

  /** The name a delivered image gets. */
  ghost function PathFor(cfg: Config, env: Env, key: Key): Path
    requires Delivered(cfg, env, key)
  {
    Final(key.item, key.imageType, ExtensionFor(cfg.letters, env.image(key).contentType).value)
  }

  /** Its row: where it is, the digest of its bytes, and of the provider's words those that say something. */
  ghost function RowFor(cfg: Config, env: Env, md: Movie, key: Key): Image
    requires Delivered(cfg, env, key) && key.imageType in md.images
  {
    var c := md.images[key.imageType];
    Held(PathFor(cfg, env, key), cfg.hash(env.image(key).body.data),
         NormalizeContentType(cfg.letters, env.image(key).contentType),
         if c.width > 0 then Some(c.width) else None, if c.height > 0 then Some(c.height) else None,
         if c.url == "" then None else Some(c.url))
  }

  ghost predicate FieldPinned(db: Db, key: Key)
  {
    ImageField(key.imageType).Some? && Pinned(db, key.item, ImageField(key.imageType).value)
  }

  ghost predicate Claims(cfg: Config, db: Db, key: Key)
  {
    && ImageField(key.imageType).Some?
    && var cell := Cell(key.item, ImageField(key.imageType).value);
       cell in db.provenance && db.provenance[cell] == Provenance(cfg.source, false)
  }

  ghost predicate SameRow(a: Db, b: Db, key: Key)
  {
    (key in b.images <==> key in a.images) && (key in a.images ==> b.images[key] == a.images[key])
  }

  /** A type is tried in a full refresh, or when it has no row. */
  ghost predicate Due(all: bool, db: Db, key: Key)
  {
    all || key !in db.images
  }

  /**
   A type that is due and not locked gets a negative row when the provider has no such image, and the whole
   row with its bytes in place when they are delivered; otherwise its row stays.
   */
  ghost predicate ImageStored(cfg: Config, all: bool, env: Env, md: Movie, a: State, b: State, key: Key)
  {
    if !Due(all, a.db, key) || FieldPinned(a.db, key) then SameRow(a.db, b.db, key)
    else if key.imageType !in md.images then
      key in b.db.images && b.db.images[key] == Negative && Claims(cfg, b.db, key)
    else if Delivered(cfg, env, key) then
      && key in b.db.images && b.db.images[key] == RowFor(cfg, env, md, key) && Claims(cfg, b.db, key)
      && PathFor(cfg, env, key) in b.files && b.files[PathFor(cfg, env, key)] == env.image(key).body.data
    else SameRow(a.db, b.db, key)
  }

  ghost predicate OfKey(path: Path, key: Key)
  {
    path.Final? && path.item == key.item && path.imageType == key.imageType
  }

  ghost predicate SameFile(a: State, b: State, path: Path)
  {
    (path in b.files <==> path in a.files) && (path in a.files ==> b.files[path] == a.files[path])
  }

  /** What the turn of one image leaves alone. */
  ghost predicate ImageApart(a: State, b: State, key: Key)
  {
    && b.db.items == a.db.items && b.db.genres == a.db.genres && b.db.cells == a.db.cells
    && (forall other: Key :: other != key ==> SameRow(a.db, b.db, other))
    && (forall cell: Cell :: ImageField(key.imageType) != Some(cell.field) || cell.item != key.item ==>
          SameCell(a.db, b.db, cell))
    && (FieldPinned(a.db, key) ==> forall cell :: SameCell(a.db, b.db, cell))
    && (forall path :: !OfKey(path, key) ==> SameFile(a, b, path))
  }

  /** A download counts when its row is stored, a refusal when a row was there to store and the lock refused it. */
  ghost function DownloadCount(cfg: Config, all: bool, env: Env, md: Movie, db: Db, key: Key): nat
  {
    if Due(all, db, key) && !FieldPinned(db, key) && key.imageType in md.images && Delivered(cfg, env, key)
    then 1 else 0
  }

  ghost function RefusalCount(cfg: Config, all: bool, env: Env, md: Movie, db: Db, key: Key): nat
  {
    if Due(all, db, key) && FieldPinned(db, key) && (key.imageType in md.images ==> Delivered(cfg, env, key))
    then 1 else 0
  }

  lemma DownloadExactly(cfg: Config, env: Env, files: Files, key: Key, c: Candidate)
    ensures var d := Downloaded(cfg, env, files, key, c);
      && (d.Fetched? <==> Delivered(cfg, env, key))
      && (d.Fetched? ==>
            && d.files == files[PathFor(cfg, env, key) := env.image(key).body.data]
            && d.img == ItemImage(PathFor(cfg, env, key), cfg.hash(env.image(key).body.data),
                                  NormalizeContentType(cfg.letters, env.image(key).contentType),
                                  c.width, c.height, c.url))
  {
    hide ExtensionFor, NormalizeContentType;
  }

  lemma RowEffect(cfg: Config, env: Env, db: Db, key: Key, img: ItemImage)
    requires cfg.source != "" && key.item in db.items && ImageField(key.imageType).Some?
    ensures var w := RowWritten(cfg, env, db, key, img); var cell := Cell(key.item, ImageField(key.imageType).value);
      && (w.outcome.Failed? <==> !env.writes(key)) && (w.outcome.Failed? ==> w.db == db)
      && (env.writes(key) ==> (w.outcome.LockRefused? <==> FieldPinned(db, key)))
      && (w.outcome.LockRefused? ==> w.db == db)
      && (w.outcome.Written? ==>
            w.db == db.(provenance := db.provenance[cell := Provenance(cfg.source, false)],
                        images := db.images[key := RowOf(img)]))
  {
    hide ImageField, RowOf;
  }

  lemma RowText(cfg: Config, env: Env, md: Movie, key: Key)
    requires Delivered(cfg, env, key) && key.imageType in md.images
    ensures var c := md.images[key.imageType];
      RowOf(ItemImage(PathFor(cfg, env, key), cfg.hash(env.image(key).body.data),
                      NormalizeContentType(cfg.letters, env.image(key).contentType), c.width, c.height, c.url))
      == RowFor(cfg, env, md, key)
    ensures RowOf(NoImage) == Negative
  {
    hide ExtensionFor, NormalizeContentType;
  }

  lemma NothingRow()
    ensures RowOf(NoImage) == Negative
  {
  }

  /** What one image's turn must come to. */
  ghost predicate TurnDone(cfg: Config, all: bool, env: Env, md: Movie, key: Key, p: Imaging, q: Imaging)
  {
    && ImageApart(p.s, q.s, key)
    && (!q.halted ==>
          && ImageStored(cfg, all, env, md, p.s, q.s, key)
          && q.downloaded == p.downloaded + DownloadCount(cfg, all, env, md, p.s.db, key)
          && q.skipped == p.skipped + RefusalCount(cfg, all, env, md, p.s.db, key))
  }

  lemma NegativeTurn(cfg: Config, all: bool, env: Env, md: Movie, key: Key, p: Imaging)
    requires cfg.source != "" && key.item in p.s.db.items && key.imageType in IMAGE_TYPES && !p.halted
    requires Due(all, p.s.db, key) && key.imageType !in md.images
    ensures TurnDone(cfg, all, env, md, key, p, ImageTried(cfg, all, env, md, key in p.s.db.images, key, p))
  {
    hide RowWritten, RowOf, ImageApart, FieldPinned;
    ManagedField(key);
    hide ImageField;
    SameApart(p.s, key);
    NothingRow();
    RowEffect(cfg, env, p.s.db, key, NoImage);
    RowApart(cfg, p.s, key, p.s.files, Negative);
  }

  /** The image rows and their sources once a row is stored. */
  ghost function WithRow(cfg: Config, db: Db, key: Key, row: Image): Db
    requires ImageField(key.imageType).Some?
  {
    var cell := Cell(key.item, ImageField(key.imageType).value);
    db.(provenance := db.provenance[cell := Provenance(cfg.source, false)], images := db.images[key := row])
  }

  lemma DownloadOutcome(cfg: Config, all: bool, env: Env, md: Movie, key: Key, p: Imaging)
    requires cfg.source != "" && key.item in p.s.db.items && ImageField(key.imageType).Some? && !p.halted
    requires Due(all, p.s.db, key) && key.imageType in md.images
    ensures var q := ImageTried(cfg, all, env, md, key in p.s.db.images, key, p);
      if !Delivered(cfg, env, key) then q == p || q == p.(halted := true)
      else
        var files := p.s.files[PathFor(cfg, env, key) := env.image(key).body.data];
        if !env.writes(key) then q.halted && q.s == p.s.(files := files)
        else if FieldPinned(p.s.db, key) then q == Imaging(p.s.(files := files), p.downloaded, p.skipped + 1, false)
        else
          q == Imaging(State(WithRow(cfg, p.s.db, key, RowFor(cfg, env, md, key)), files), p.downloaded + 1, p.skipped,
                       false)
  {
    hide Downloaded, RowWritten, RowOf, PathFor, RowFor, Delivered, FieldPinned, ImageField;
    var d := Downloaded(cfg, env, p.s.files, key, md.images[key.imageType]);
    DownloadExactly(cfg, env, p.s.files, key, md.images[key.imageType]);
    if d.Fetched? {
      RowText(cfg, env, md, key);
      RowEffect(cfg, env, p.s.db, key, d.img);
    }
  }

  lemma DownloadTurn(cfg: Config, all: bool, env: Env, md: Movie, key: Key, p: Imaging)
    requires cfg.source != "" && key.item in p.s.db.items && key.imageType in IMAGE_TYPES && !p.halted
    requires Due(all, p.s.db, key) && key.imageType in md.images
    ensures TurnDone(cfg, all, env, md, key, p, ImageTried(cfg, all, env, md, key in p.s.db.images, key, p))
  {
    hide ImageTried, ImageApart, PathFor, RowFor, Delivered, FieldPinned, OfKey;
    ManagedField(key);
    hide ImageField;
    DownloadOutcome(cfg, all, env, md, key, p);
    SameApart(p.s, key);
    if Delivered(cfg, env, key) {
      PathOfKey(cfg, env, key);
      var files := p.s.files[PathFor(cfg, env, key) := env.image(key).body.data];
      RowApart(cfg, p.s, key, files, RowFor(cfg, env, md, key));
      FilesApart(p.s, key, files);
    }
  }

  lemma ImageTurn(cfg: Config, all: bool, env: Env, md: Movie, key: Key, p: Imaging)
    requires cfg.source != "" && key.item in p.s.db.items && key.imageType in IMAGE_TYPES && !p.halted
    ensures TurnDone(cfg, all, env, md, key, p, ImageTried(cfg, all, env, md, key in p.s.db.images, key, p))
  {
    if !Due(all, p.s.db, key) {
      hide ImageApart, FieldPinned, ImageField;
      SameApart(p.s, key);
    } else if key.imageType in md.images {
      DownloadTurn(cfg, all, env, md, key, p);
    } else {
      NegativeTurn(cfg, all, env, md, key, p);
    }
  }

  lemma ManagedField(key: Key)
    requires key.imageType in IMAGE_TYPES
    ensures ImageField(key.imageType).Some? && IsImageField(ImageField(key.imageType).value)
  {
  }

  lemma PathOfKey(cfg: Config, env: Env, key: Key)
    requires Delivered(cfg, env, key)
    ensures OfKey(PathFor(cfg, env, key), key) && env.image(key).Response?
  {
    hide ExtensionFor;
  }

  lemma SameApart(s: State, key: Key)
    ensures ImageApart(s, s, key)
  {
  }

  lemma FilesApart(s: State, key: Key, files: Files)
    requires forall path :: !OfKey(path, key) ==>
      (path in files <==> path in s.files) && (path in s.files ==> files[path] == s.files[path])
    ensures ImageApart(s, s.(files := files), key)
  {
    hide ImageField, FieldPinned;
  }

  lemma RowApart(cfg: Config, s: State, key: Key, files: Files, row: Image)
    requires ImageField(key.imageType).Some?
    requires forall path :: !OfKey(path, key) ==>
      (path in files <==> path in s.files) && (path in s.files ==> files[path] == s.files[path])
    ensures !FieldPinned(s.db, key) ==>
      var cell := Cell(key.item, ImageField(key.imageType).value);
      ImageApart(s, State(s.db.(provenance := s.db.provenance[cell := Provenance(cfg.source, false)],
                                images := s.db.images[key := row]), files), key)
  {
    hide ImageField, FieldPinned;
  }

  // ---- the images of one item ----

  /** Nothing about this image has changed: its row, its field, the files under its name. */
  ghost predicate SameImage(a: State, b: State, key: Key)
  {
    && SameRow(a.db, b.db, key)
    && (ImageField(key.imageType).Some? ==> SameCell(a.db, b.db, Cell(key.item, ImageField(key.imageType).value)))
    && (forall path :: OfKey(path, key) ==> SameFile(a, b, path))
  }

  /** What an item's images do not touch: fields and genres, and other items altogether. */
  ghost predicate ImagesApart(a: State, b: State, item: Item)
  {
    && b.db.items == a.db.items && b.db.genres == a.db.genres && b.db.cells == a.db.cells
    && (forall key: Key :: key.item != item ==> SameRow(a.db, b.db, key))
    && (forall cell: Cell :: cell.item != item || !IsImageField(cell.field) ==> SameCell(a.db, b.db, cell))
    && (forall path: Path :: path.item != item ==> SameFile(a, b, path))
  }

  lemma ApartOthers(a: State, b: State, key: Key, other: Key)
    requires ImageApart(a, b, key) && other != key && other.imageType in IMAGE_TYPES && key.imageType in IMAGE_TYPES
    ensures SameImage(a, b, other)
  {
    if other.item == key.item {
      FieldsDiffer(other.imageType, key.imageType);
    }
    hide ImageField, SameCell, FieldPinned;
  }

  lemma FieldsDiffer(a: string, b: string)
    requires a in IMAGE_TYPES && b in IMAGE_TYPES && a != b
    ensures ImageField(a) != ImageField(b)
  {
  }

  lemma SameImageCarries(a: State, b: State, c: State, key: Key)
    requires SameImage(a, b, key) && SameImage(b, c, key)
    ensures SameImage(a, c, key)
  {
    hide ImageField;
  }

  lemma ApartNextItem(a: State, b: State, c: State, key: Key)
    requires ImagesApart(a, b, key.item) && ImageApart(b, c, key) && key.imageType in IMAGE_TYPES
    ensures ImagesApart(a, c, key.item)
  {
    ManagedField(key);
    hide ImageField, SameCell, SameRow, SameFile, FieldPinned, IsImageField;
    forall cell: Cell | cell.item != key.item || !IsImageField(cell.field)
      ensures SameCell(a.db, c.db, cell)
    {
      assert SameCell(b.db, c.db, cell);
      CellsCarry(a.db, b.db, c.db, cell);
    }
    forall other: Key | other.item != key.item
      ensures SameRow(a.db, c.db, other)
    {
      RowsCarry(a.db, b.db, c.db, other);
    }
    forall path: Path | path.item != key.item
      ensures SameFile(a, c, path)
    {
      assert !OfKey(path, key);
      FilesCarry(a, b, c, path);
    }
  }

  lemma RowsCarry(a: Db, b: Db, c: Db, key: Key)
    requires SameRow(a, b, key) && SameRow(b, c, key)
    ensures SameRow(a, c, key)
  {
  }

  lemma FilesCarry(a: State, b: State, c: State, path: Path)
    requires SameFile(a, b, path) && SameFile(b, c, path)
    ensures SameFile(a, c, path)
  {
  }

  lemma StoredFrom(cfg: Config, all: bool, env: Env, md: Movie, a: State, b: State, c: State, key: Key)
    requires SameImage(a, b, key) && ImageStored(cfg, all, env, md, b, c, key)
    ensures ImageStored(cfg, all, env, md, a, c, key)
  {
    hide ImageField, RowFor, PathFor, Delivered;
  }

  lemma StoredStays(cfg: Config, all: bool, env: Env, md: Movie, a: State, b: State, c: State, key: Key)
    requires ImageStored(cfg, all, env, md, a, b, key) && SameImage(b, c, key)
    ensures ImageStored(cfg, all, env, md, a, c, key)
  {
    if Delivered(cfg, env, key) {
      PathOfKey(cfg, env, key);
    }
    hide ImageField, RowFor, PathFor, Delivered, OfKey;
  }

  lemma SameCounts(cfg: Config, all: bool, env: Env, md: Movie, a: State, b: State, key: Key)
    requires SameImage(a, b, key)
    ensures DownloadCount(cfg, all, env, md, a.db, key) == DownloadCount(cfg, all, env, md, b.db, key)
    ensures RefusalCount(cfg, all, env, md, a.db, key) == RefusalCount(cfg, all, env, md, b.db, key)
  {
    hide ImageField, Delivered;
  }

  ghost function DownloadsOf(cfg: Config, all: bool, env: Env, md: Movie, db: Db, item: Item, n: nat): nat
    requires n <= |IMAGE_TYPES|
  {
    if n == 0 then 0
    else DownloadsOf(cfg, all, env, md, db, item, n - 1)
         + DownloadCount(cfg, all, env, md, db, Key(item, IMAGE_TYPES[n - 1]))
  }

  ghost function RefusalsOf(cfg: Config, all: bool, env: Env, md: Movie, db: Db, item: Item, n: nat): nat
    requires n <= |IMAGE_TYPES|
  {
    if n == 0 then 0
    else RefusalsOf(cfg, all, env, md, db, item, n - 1)
         + RefusalCount(cfg, all, env, md, db, Key(item, IMAGE_TYPES[n - 1]))
  }

  lemma TypesDiffer(i: nat, j: nat)
    requires i < |IMAGE_TYPES| && j < |IMAGE_TYPES| && i != j
    ensures IMAGE_TYPES[i] != IMAGE_TYPES[j]
  {
  }

  lemma SameApartImages(s: State, item: Item)
    ensures ImagesApart(s, s, item) && forall key :: SameImage(s, s, key)
  {
  }

  /** Each type tried is stored as it should be, and those still to come are untouched. */
  lemma {:induction false} ItemImages(cfg: Config, all: bool, env: Env, item: Item, md: Movie, s: State, n: nat)
    requires n <= |IMAGE_TYPES| && cfg.source != "" && item in s.db.items
    ensures var q := ImagesTried(cfg, all, env, item, md, s, n);
      && ImagesApart(s, q.s, item)
      && (!q.halted ==>
            && (forall j :: 0 <= j < n ==> ImageStored(cfg, all, env, md, s, q.s, Key(item, IMAGE_TYPES[j])))
            && (forall j :: n <= j < |IMAGE_TYPES| ==> SameImage(s, q.s, Key(item, IMAGE_TYPES[j])))
            && q.downloaded == DownloadsOf(cfg, all, env, md, s.db, item, n)
            && q.skipped == RefusalsOf(cfg, all, env, md, s.db, item, n))
  {
    hide ImageTried, ImagesApart, ImageApart, ImageStored, SameImage, DownloadCount, RefusalCount;
    if n == 0 {
      SameApartImages(s, item);
    } else {
      ItemImages(cfg, all, env, item, md, s, n - 1);
      var p := ImagesTried(cfg, all, env, item, md, s, n - 1);
      if p.halted {
        ImagesHaltedStay(cfg, all, env, item, md, s, n - 1, n);
      } else {
        ImageNext(cfg, all, env, item, md, s, p, n);
      }
    }
  }

  lemma ImageNext(cfg: Config, all: bool, env: Env, item: Item, md: Movie, s: State, p: Imaging, n: nat)
    requires 0 < n <= |IMAGE_TYPES| && cfg.source != "" && item in s.db.items && !p.halted
    requires ImagesApart(s, p.s, item)
    requires forall j :: 0 <= j < n - 1 ==> ImageStored(cfg, all, env, md, s, p.s, Key(item, IMAGE_TYPES[j]))
    requires forall j :: n - 1 <= j < |IMAGE_TYPES| ==> SameImage(s, p.s, Key(item, IMAGE_TYPES[j]))
    ensures var key := Key(item, IMAGE_TYPES[n - 1]);
      var q := ImageTried(cfg, all, env, md, key in s.db.images, key, p);
      && ImagesApart(s, q.s, item)
      && (!q.halted ==>
            && (forall j :: 0 <= j < n ==> ImageStored(cfg, all, env, md, s, q.s, Key(item, IMAGE_TYPES[j])))
            && (forall j :: n <= j < |IMAGE_TYPES| ==> SameImage(s, q.s, Key(item, IMAGE_TYPES[j])))
            && q.downloaded == p.downloaded + DownloadCount(cfg, all, env, md, s.db, key)
            && q.skipped == p.skipped + RefusalCount(cfg, all, env, md, s.db, key))
  {
    hide ImageTried, ImageApart, ImageStored, DownloadCount, RefusalCount, ImageField, SameCell, SameFile;
    var key := Key(item, IMAGE_TYPES[n - 1]);
    assert SameImage(s, p.s, key);
    assert key in s.db.images <==> key in p.s.db.images;
    hide SameImage;
    ImageTurn(cfg, all, env, md, key, p);
    var q := ImageTried(cfg, all, env, md, key in s.db.images, key, p);
    ApartNextItem(s, p.s, q.s, key);
    hide ImagesApart;
    if !q.halted {
      StoredFrom(cfg, all, env, md, s, p.s, q.s, key);
      SameCounts(cfg, all, env, md, s, p.s, key);
      forall j | 0 <= j < |IMAGE_TYPES| && j != n - 1
        ensures SameImage(p.s, q.s, Key(item, IMAGE_TYPES[j]))
      {
        TypesDiffer(j, n - 1);
        ApartOthers(p.s, q.s, key, Key(item, IMAGE_TYPES[j]));
      }
      forall j | 0 <= j < n - 1
        ensures ImageStored(cfg, all, env, md, s, q.s, Key(item, IMAGE_TYPES[j]))
      {
        StoredStays(cfg, all, env, md, s, p.s, q.s, Key(item, IMAGE_TYPES[j]));
      }
      forall j | n <= j < |IMAGE_TYPES|
        ensures SameImage(s, q.s, Key(item, IMAGE_TYPES[j]))
      {
        SameImageCarries(s, p.s, q.s, Key(item, IMAGE_TYPES[j]));
      }
    }
  }

  // ---- one item ----

  /** Nothing about an item has changed, its metadata row apart. */
  ghost predicate SameItem(a: State, b: State, item: Item)
  {
    && (forall cell: Cell :: cell.item == item ==> SameCell(a.db, b.db, cell))
    && SameGenres(a.db, b.db, item)
    && (forall key: Key :: key.item == item ==> SameRow(a.db, b.db, key))
    && (forall path: Path :: path.item == item ==> SameFile(a, b, path))
  }

  /** Whether the provider says anything of an item. */
  ghost predicate Answered(cfg: Config, env: Env, item: Item)
  {
    cfg.providerId(item) != "" && env.fetch(item).Answer?
  }

  /** An answered item has everything of its answer stored; any other stays as it was. */
  ghost predicate ItemStored(cfg: Config, all: bool, env: Env, a: State, b: State, item: Item)
  {
    if Answered(cfg, env, item) then
      && AnswerStored(cfg, a.db, b.db, item, env.fetch(item).md)
      && forall j :: 0 <= j < |IMAGE_TYPES| ==>
           ImageStored(cfg, all, env, env.fetch(item).md, a, b, Key(item, IMAGE_TYPES[j]))
    else SameItem(a, b, item)
  }

  ghost function ItemDownloads(cfg: Config, all: bool, env: Env, db: Db, item: Item): nat
  {
    if Answered(cfg, env, item) then DownloadsOf(cfg, all, env, env.fetch(item).md, db, item, |IMAGE_TYPES|) else 0
  }

  ghost function ItemRefusals(cfg: Config, all: bool, env: Env, db: Db, item: Item): nat
  {
    if Answered(cfg, env, item) then
      RefusedCount(db, item, env.fetch(item).md)
      + RefusalsOf(cfg, all, env, env.fetch(item).md, db, item, |IMAGE_TYPES|)
    else 0
  }

  lemma FieldsKeepImages(s: State, db: Db, item: Item)
    requires FieldsApart(s.db, db, item)
    ensures forall key: Key :: key.imageType in IMAGE_TYPES ==> SameImage(s, s.(db := db), key)
    ensures forall other :: other != item ==> SameItem(s, s.(db := db), other)
  {
    hide SameCell;
    forall key: Key | key.imageType in IMAGE_TYPES
      ensures SameImage(s, s.(db := db), key)
    {
      ImageFieldApart(key);
      assert SameCell(s.db, db, Cell(key.item, ImageField(key.imageType).value));
    }
  }

  lemma ImageFieldApart(key: Key)
    requires key.imageType in IMAGE_TYPES
    ensures ImageField(key.imageType).Some?
    ensures ImageField(key.imageType).value !in {OVERVIEW, RATING, CERTIFICATE, RELEASE, GENRES}
  {
  }

  lemma ImagesKeepFields(cfg: Config, a: Db, b: State, c: State, item: Item, md: Movie)
    requires AnswerStored(cfg, a, b.db, item, md) && ImagesApart(b, c, item)
    ensures AnswerStored(cfg, a, c.db, item, md)
  {
    FieldKinds();
    hide SameCell, ScalarStored, GenresStored, IsImageField;
    assert forall f :: f in {OVERVIEW, RATING, CERTIFICATE, RELEASE, GENRES} ==> SameCell(b.db, c.db, Cell(item, f));
    ScalarCarries(cfg, a, b.db, c.db, item, md, OVERVIEW);
    ScalarCarries(cfg, a, b.db, c.db, item, md, RATING);
    ScalarCarries(cfg, a, b.db, c.db, item, md, CERTIFICATE);
    ScalarCarries(cfg, a, b.db, c.db, item, md, RELEASE);
    GenresStay(cfg, a, b.db, c.db, item, md);
  }

  lemma FieldKinds()
    ensures forall f :: f in {OVERVIEW, RATING, CERTIFICATE, RELEASE, GENRES} ==> !IsImageField(f)
  {
  }

  lemma GenresStay(cfg: Config, a: Db, b: Db, c: Db, item: Item, md: Movie)
    requires GenresStored(cfg, a, b, item, md) && SameCell(b, c, Cell(item, GENRES)) && SameGenres(b, c, item)
    ensures GenresStored(cfg, a, c, item, md)
  {
    hide Listed;
  }

  lemma GenresFrom(cfg: Config, a: Db, b: Db, c: Db, item: Item, md: Movie)
    requires SameCell(a, b, Cell(item, GENRES)) && SameGenres(a, b, item) && GenresStored(cfg, b, c, item, md)
    ensures GenresStored(cfg, a, c, item, md)
  {
    hide Listed;
  }

  lemma ScalarFrom(cfg: Config, a: Db, b: Db, c: Db, item: Item, md: Movie, field: string)
    requires SameCell(a, b, Cell(item, field)) && ScalarStored(cfg, b, c, item, md, field)
    ensures ScalarStored(cfg, a, c, item, md, field)
  {
    hide Knows, IsKnown;
  }

  lemma OthersSame(a: State, b: State, item: Item)
    requires ImagesApart(a, b, item)
    ensures forall other :: other != item ==> SameItem(a, b, other)
  {
    hide SameCell, SameRow, SameFile;
  }

  lemma SameItemCarries(a: State, b: State, c: State, item: Item)
    requires SameItem(a, b, item) && SameItem(b, c, item)
    ensures SameItem(a, c, item)
  {
    hide SameCell, SameRow, SameFile;
    forall cell: Cell | cell.item == item
      ensures SameCell(a.db, c.db, cell)
    {
      CellsCarry(a.db, b.db, c.db, cell);
    }
    forall key: Key | key.item == item
      ensures SameRow(a.db, c.db, key)
    {
      RowsCarry(a.db, b.db, c.db, key);
    }
    forall path: Path | path.item == item
      ensures SameFile(a, c, path)
    {
      FilesCarry(a, b, c, path);
    }
  }

  lemma SameItemSelf(s: State)
    ensures forall item :: SameItem(s, s, item)
  {
  }

  /** An item's whole turn. */
  lemma ItemTurn(cfg: Config, all: bool, env: Env, item: Item, t: Tally)
    requires cfg.source != "" && item in t.s.db.items && !t.halted
    ensures var u := ItemDone(cfg, all, env, item, t);
      && u.s.db.items == t.s.db.items && (forall other :: other != item ==> SameItem(t.s, u.s, other))
      && (!u.halted ==>
            && ItemStored(cfg, all, env, t.s, u.s, item)
            && u.fetched == t.fetched + (if Answered(cfg, env, item) then 1 else 0)
            && u.downloaded == t.downloaded + ItemDownloads(cfg, all, env, t.s.db, item)
            && u.skipped == t.skipped + ItemRefusals(cfg, all, env, t.s.db, item))
  {
    hide FieldsStored, ImagesTried, SameItem, AnswerStored, ImageStored, FieldsApart, ImagesApart, AnyRejected,
      RefusedCount, SameImage, DownloadsOf, RefusalsOf;
    SameItemSelf(t.s);
    var u := ItemDone(cfg, all, env, item, t);
    if !env.stops(item) && Answered(cfg, env, item) {
      var md := env.fetch(item).md;
      var stored := FieldsStored(cfg, t.s.db, item, md);
      var s1 := t.s.(db := stored.db);
      FieldsStoredExactly(cfg, t.s.db, item, md);
      FieldsKeepImages(t.s, stored.db, item);
      SameItems(t.s.db, stored.db, item);
      if !stored.failed {
        var q := ImagesTried(cfg, all, env, item, md, s1, |IMAGE_TYPES|);
        ItemImages(cfg, all, env, item, md, s1, |IMAGE_TYPES|);
        OthersSame(s1, q.s, item);
        forall other | other != item
          ensures SameItem(t.s, q.s, other)
        {
          SameItemCarries(t.s, s1, q.s, other);
        }
        ItemsSame(s1, q.s, item);
        if !q.halted {
          ImagesKeepFields(cfg, t.s.db, s1, q.s, item, md);
          TurnStored(cfg, all, env, md, t.s, s1, q.s, item);
        }
      }
    }
  }

  lemma SameItems(a: Db, b: Db, item: Item)
    requires FieldsApart(a, b, item)
    ensures b.items == a.items
  {
  }

  lemma ItemsSame(a: State, b: State, item: Item)
    requires ImagesApart(a, b, item)
    ensures b.db.items == a.db.items
  {
  }

  lemma TurnStored(cfg: Config, all: bool, env: Env, md: Movie, a: State, b: State, c: State, item: Item)
    requires forall key: Key :: key.imageType in IMAGE_TYPES ==> SameImage(a, b, key)
    requires forall j :: 0 <= j < |IMAGE_TYPES| ==> ImageStored(cfg, all, env, md, b, c, Key(item, IMAGE_TYPES[j]))
    ensures forall j :: 0 <= j < |IMAGE_TYPES| ==> ImageStored(cfg, all, env, md, a, c, Key(item, IMAGE_TYPES[j]))
    ensures DownloadsOf(cfg, all, env, md, b.db, item, |IMAGE_TYPES|) ==
      DownloadsOf(cfg, all, env, md, a.db, item, |IMAGE_TYPES|)
    ensures RefusalsOf(cfg, all, env, md, b.db, item, |IMAGE_TYPES|) ==
      RefusalsOf(cfg, all, env, md, a.db, item, |IMAGE_TYPES|)
  {
    hide SameImage, ImageStored, DownloadsOf, RefusalsOf;
    forall j | 0 <= j < |IMAGE_TYPES|
      ensures ImageStored(cfg, all, env, md, a, c, Key(item, IMAGE_TYPES[j]))
    {
      StoredFrom(cfg, all, env, md, a, b, c, Key(item, IMAGE_TYPES[j]));
    }
    CountsAlike(cfg, all, env, md, a, b, item, |IMAGE_TYPES|);
  }

  lemma {:induction false} CountsAlike(cfg: Config, all: bool, env: Env, md: Movie, a: State, b: State, item: Item,
                                       n: nat)
    requires n <= |IMAGE_TYPES| && forall j :: 0 <= j < n ==> SameImage(a, b, Key(item, IMAGE_TYPES[j]))
    ensures DownloadsOf(cfg, all, env, md, a.db, item, n) == DownloadsOf(cfg, all, env, md, b.db, item, n)
    ensures RefusalsOf(cfg, all, env, md, a.db, item, n) == RefusalsOf(cfg, all, env, md, b.db, item, n)
  {
    hide SameImage, DownloadCount, RefusalCount;
    if n > 0 {
      CountsAlike(cfg, all, env, md, a, b, item, n - 1);
      SameCounts(cfg, all, env, md, a, b, Key(item, IMAGE_TYPES[n - 1]));
    }
  }

  // ---- the whole pass ----

  lemma SameItemImages(a: State, b: State, item: Item)
    requires SameItem(a, b, item)
    ensures forall key: Key :: key.item == item ==> SameImage(a, b, key)
  {
    hide SameCell, SameRow, SameFile;
  }

  /** What an item's turn stores is the same against any state in which nothing about the item differed. */
  lemma ItemFrom(cfg: Config, all: bool, env: Env, a: State, b: State, c: State, item: Item)
    requires SameItem(a, b, item) && ItemStored(cfg, all, env, b, c, item)
    ensures ItemStored(cfg, all, env, a, c, item)
    ensures ItemDownloads(cfg, all, env, a.db, item) == ItemDownloads(cfg, all, env, b.db, item)
    ensures ItemRefusals(cfg, all, env, a.db, item) == ItemRefusals(cfg, all, env, b.db, item)
  {
    hide ImageStored, ScalarStored, GenresStored, SameRow, SameFile, SameImage, DownloadsOf, RefusalsOf;
    if Answered(cfg, env, item) {
      var md := env.fetch(item).md;
      SameItemImages(a, b, item);
      ScalarFrom(cfg, a.db, b.db, c.db, item, md, OVERVIEW);
      ScalarFrom(cfg, a.db, b.db, c.db, item, md, RATING);
      ScalarFrom(cfg, a.db, b.db, c.db, item, md, CERTIFICATE);
      ScalarFrom(cfg, a.db, b.db, c.db, item, md, RELEASE);
      GenresFrom(cfg, a.db, b.db, c.db, item, md);
      forall j | 0 <= j < |IMAGE_TYPES|
        ensures ImageStored(cfg, all, env, md, a, c, Key(item, IMAGE_TYPES[j]))
      {
        StoredFrom(cfg, all, env, md, a, b, c, Key(item, IMAGE_TYPES[j]));
      }
      CountsAlike(cfg, all, env, md, a, b, item, |IMAGE_TYPES|);
      RefusedAlike(a, b, item, md);
    } else {
      SameItemCarries(a, b, c, item);
    }
  }

  lemma RefusedAlike(a: State, b: State, item: Item, md: Movie)
    requires SameItem(a, b, item)
    ensures RefusedCount(a.db, item, md) == RefusedCount(b.db, item, md)
  {
    hide IsKnown, SameRow, SameFile;
    assert forall f :: SameCell(a.db, b.db, Cell(item, f));
  }

  lemma ItemStays(cfg: Config, all: bool, env: Env, a: State, b: State, c: State, item: Item)
    requires ItemStored(cfg, all, env, a, b, item) && SameItem(b, c, item)
    ensures ItemStored(cfg, all, env, a, c, item)
  {
    hide ImageStored, ScalarStored, GenresStored, SameRow, SameFile, SameImage, SameCell;
    if Answered(cfg, env, item) {
      var md := env.fetch(item).md;
      SameItemImages(b, c, item);
      assert forall f :: SameCell(b.db, c.db, Cell(item, f));
      ScalarCarries(cfg, a.db, b.db, c.db, item, md, OVERVIEW);
      ScalarCarries(cfg, a.db, b.db, c.db, item, md, RATING);
      ScalarCarries(cfg, a.db, b.db, c.db, item, md, CERTIFICATE);
      ScalarCarries(cfg, a.db, b.db, c.db, item, md, RELEASE);
      GenresStay(cfg, a.db, b.db, c.db, item, md);
      forall j | 0 <= j < |IMAGE_TYPES|
        ensures ImageStored(cfg, all, env, md, a, c, Key(item, IMAGE_TYPES[j]))
      {
        StoredStays(cfg, all, env, md, a, b, c, Key(item, IMAGE_TYPES[j]));
      }
    } else {
      SameItemCarries(a, b, c, item);
    }
  }

  /** The counts of a pass, summed over its items as they were before it. */
  ghost function TotalFetched(cfg: Config, env: Env, batch: seq<Item>): nat
  {
    if batch == [] then 0
    else TotalFetched(cfg, env, batch[..|batch| - 1]) + (if Answered(cfg, env, batch[|batch| - 1]) then 1 else 0)
  }

  ghost function TotalDownloads(cfg: Config, all: bool, env: Env, db: Db, batch: seq<Item>): nat
  {
    if batch == [] then 0
    else TotalDownloads(cfg, all, env, db, batch[..|batch| - 1])
         + ItemDownloads(cfg, all, env, db, batch[|batch| - 1])
  }

  ghost function TotalRefusals(cfg: Config, all: bool, env: Env, db: Db, batch: seq<Item>): nat
  {
    if batch == [] then 0
    else TotalRefusals(cfg, all, env, db, batch[..|batch| - 1]) + ItemRefusals(cfg, all, env, db, batch[|batch| - 1])
  }

  /** What a pass has done after some of its items. */
  ghost predicate PassStored(cfg: Config, all: bool, env: Env, done: seq<Item>, s: State, t: Tally)
  {
    && t.s.db.items == s.db.items && (forall item :: item !in done ==> SameItem(s, t.s, item))
    && (!t.halted ==>
          && (forall item :: item in done ==> ItemStored(cfg, all, env, s, t.s, item))
          && t.fetched == TotalFetched(cfg, env, done)
          && t.downloaded == TotalDownloads(cfg, all, env, s.db, done)
          && t.skipped == TotalRefusals(cfg, all, env, s.db, done))
  }

  lemma {:induction false} PassStores(cfg: Config, all: bool, env: Env, batch: seq<Item>, s: State, n: nat)
    requires n <= |batch| && cfg.source != "" && Lists.Distinct(batch)
    requires forall item :: item in batch ==> item in s.db.items
    ensures PassStored(cfg, all, env, batch[..n], s, Passed(cfg, all, env, batch, s, n))
  {
    hide ItemDone, SameItem, ItemStored, ItemDownloads, ItemRefusals, PassStored;
    if n == 0 {
      NothingStored(cfg, all, env, s);
      assert batch[..0] == [];
    } else {
      PassStores(cfg, all, env, batch, s, n - 1);
      var t := Passed(cfg, all, env, batch, s, n - 1);
      assert batch[..n] == batch[..n - 1] + [batch[n - 1]];
      if t.halted {
        HaltedStays(cfg, all, env, batch, s, n - 1, n);
        PassFewer(cfg, all, env, batch[..n - 1], batch[n - 1], s, t);
      } else {
        PassNextItem(cfg, all, env, batch[..n - 1], batch[n - 1], s, t);
      }
    }
  }

  lemma NothingStored(cfg: Config, all: bool, env: Env, s: State)
    ensures PassStored(cfg, all, env, [], s, Tally(s, 0, 0, 0, false))
  {
    SameItemSelf(s);
  }

  lemma PassFewer(cfg: Config, all: bool, env: Env, done: seq<Item>, item: Item, s: State, t: Tally)
    requires PassStored(cfg, all, env, done, s, t) && t.halted
    ensures PassStored(cfg, all, env, done + [item], s, t)
  {
    hide SameItem;
  }

  lemma PassNextItem(cfg: Config, all: bool, env: Env, done: seq<Item>, item: Item, s: State, t: Tally)
    requires PassStored(cfg, all, env, done, s, t) && !t.halted && item !in done
    requires cfg.source != "" && item in s.db.items
    ensures PassStored(cfg, all, env, done + [item], s, ItemDone(cfg, all, env, item, t))
  {
    hide ItemDone, SameItem, ItemStored, ItemDownloads, ItemRefusals;
    var u := ItemDone(cfg, all, env, item, t);
    ItemTurn(cfg, all, env, item, t);
    assert (done + [item])[..|done|] == done;
    forall other | other !in done + [item]
      ensures SameItem(s, u.s, other)
    {
      SameItemCarries(s, t.s, u.s, other);
    }
    if !u.halted {
      ItemFrom(cfg, all, env, s, t.s, u.s, item);
      forall other | other in done
        ensures ItemStored(cfg, all, env, s, u.s, other)
      {
        ItemStays(cfg, all, env, s, t.s, u.s, other);
      }
    }
  }

  // ---- the refresh ----

  /** What sweeping and reconciling leave of an item: every field, and each row whose file is there. */
  lemma BegunKeepsFields(cfg: Config, library: nat, env: Env, s: State)
    ensures var r := Begun(cfg, library, env, s);
      && r.db == s.db.(images := r.db.images)
      && forall key :: key in r.db.images ==> key in s.db.images && r.db.images[key] == s.db.images[key]
  {
  }

  /**
   A refresh that is not cut short, ordinary or full, from any state: every item it selects and the provider
   answers has all of the answer stored, fields and genres against any lock and images that were due; every
   other item is as reconciling left it; and the counts are those of the answers, the rows stored with
   bytes, and the values and rows that a lock refused.
   */
  lemma RefreshStoresAnswers(cfg: Config, library: nat, all: bool, env: Env, s: State)
    requires cfg.source != "" && Lists.Distinct(cfg.order) && forall item :: item in cfg.order ==> item in s.db.items
    ensures var t := Refreshed(cfg, library, all, env, s);
      var ready := Begun(cfg, library, env, s);
      var batch := Selected(cfg, library, all, ready.db);
      !t.halted ==>
        && (forall item :: item in batch ==> ItemStored(cfg, all, env, ready, t.s, item))
        && (forall item :: item !in batch ==> SameItem(ready, t.s, item))
        && t.fetched == TotalFetched(cfg, env, batch)
        && t.downloaded == TotalDownloads(cfg, all, env, ready.db, batch)
        && t.skipped == TotalRefusals(cfg, all, env, ready.db, batch)
  {
    hide Begun, EndsEarly, Selected, ItemStored, SameItem, Passed, TotalFetched, TotalDownloads, TotalRefusals;
    var ready := Begun(cfg, library, env, s);
    var batch := Selected(cfg, library, all, ready.db);
    BegunKeepsFields(cfg, library, env, s);
    SelectedListed(cfg, library, all, ready.db);
    PassStores(cfg, all, env, batch, ready, |batch|);
    assert batch[..|batch|] == batch;
  }

  lemma SelectedListed(cfg: Config, library: nat, all: bool, db: Db)
    requires Lists.Distinct(cfg.order)
    ensures var batch := Selected(cfg, library, all, db);
      Lists.Distinct(batch) && forall item :: item in batch ==> item in cfg.order
  {
    hide Lists.Filter, Wanted;
    var wanted := Wanted(cfg, library, all, db);
    Lists.FilterDistinct(wanted, cfg.order);
    Lists.FilterMembers(wanted, cfg.order);
  }
}
