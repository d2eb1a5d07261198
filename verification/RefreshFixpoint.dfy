/**
 What an ordinary refresh leaves behind (internal/service/artwork.go, internal/service/metadata.go,
 internal/repository/metadata.go): absence is the retry queue, so the missing rows only shrink, and
 once everything has been answered another refresh selects nothing.
 */
module RefreshFixpoint {
  import opened Text
  import opened ArtworkStore
  import opened MetadataRows
  import opened Refresh
  import FieldLocks
  import Lists

  function CellOf(key: Key): Cell
  {
    FieldLocks.FieldOf(key.item, key.imageType)
  }

  // ---- what every step of an ordinary pass keeps ----

  /** Every row is of a type the server manages, and names a file of its own item and type. */
  ghost predicate OwnFiles(s: State)
  {
    forall key :: key in s.db.images ==>
      && key.imageType in IMAGE_TYPES
      && (s.db.images[key].Held? ==>
            var p := s.db.images[key].path; p.Final? && p.item == key.item && p.imageType == key.imageType)
  }

  ghost predicate OnDisk(cfg: Config, library: nat, s: State)
  {
    forall key :: !Gone(cfg, library, s.db.images, s.files, key)
  }

  ghost predicate NoLeftovers(s: State)
  {
    forall p :: p in s.files ==> p.Final?
  }

  /** A row whose file is there carries the digest of its bytes. */
  ghost predicate TagsRight(cfg: Config, s: State)
  {
    forall key :: key in s.db.images && s.db.images[key].Held? && s.db.images[key].path in s.files ==>
      s.db.images[key].tag == cfg.hash(s.files[s.db.images[key].path])
  }

  /** The catalogue lists items the tables know, under a provider with a name. */
  ghost predicate Catalogued(cfg: Config, s: State)
  {
    cfg.source != "" && forall item :: item in cfg.order ==> item in s.db.items
  }

  /** From one state to a later one of the same pass: rows, files and locks all stay. */
  ghost predicate Grows(s: State, t: State)
  {
    && t.db.items == s.db.items && s.db.fetched <= t.db.fetched
    && (forall key :: key in s.db.images ==> key in t.db.images && t.db.images[key] == s.db.images[key])
    && (forall key :: Locked(t.db, CellOf(key)) <==> Locked(s.db, CellOf(key)))
    && (forall p :: p in s.files ==> p in t.files)
  }

  lemma GrowsTransitive(a: State, b: State, c: State)
    requires Grows(a, b) && Grows(b, c)
    ensures Grows(a, c)
  {
    hide CellOf;
  }

  ghost predicate Orderly(cfg: Config, library: nat, s: State)
  {
    OwnFiles(s) && OnDisk(cfg, library, s) && NoLeftovers(s)
  }

  ghost predicate Keeps(cfg: Config, library: nat, s: State, t: State)
  {
    && Grows(s, t)
    && (Orderly(cfg, library, s) ==> Orderly(cfg, library, t))
    && (OwnFiles(s) && TagsRight(cfg, s) ==> OwnFiles(t) && TagsRight(cfg, t))
  }

  lemma KeepsTransitive(cfg: Config, library: nat, a: State, b: State, c: State)
    requires Keeps(cfg, library, a, b) && Keeps(cfg, library, b, c)
    ensures Keeps(cfg, library, a, c)
  {
    hide Orderly, OwnFiles, TagsRight, Grows;
    GrowsTransitive(a, b, c);
  }

  lemma KeepsReflexive(cfg: Config, library: nat, s: State)
    ensures Keeps(cfg, library, s, s)
  {
  }

  // ---- one image ----

  ghost predicate Arrives(cfg: Config, env: Env, key: Key)
  {
    env.image(key).Response? &&
    Attempt(cfg.letters, cfg.hash, cfg.max, key.item, key.imageType,
            env.image(key).contentType, env.image(key).body, env.fault(key)).Stored?
  }

  /** The provider has no such image, or its bytes arrive. */
  ghost predicate ImageAnswered(cfg: Config, env: Env, md: Movie, key: Key)
  {
    env.writes(key) && (key.imageType in md.images ==> Arrives(cfg, env, key))
  }

  /** What a download hands on: the whole new file, under the key's own name, with its digest. */
  ghost predicate Handed(cfg: Config, s: State, key: Key, img: ItemImage, files: Files)
  {
    match img
    case NoImage => files == s.files
    case ItemImage(path, tag, _, _, _, _) =>
      && path.Final? && path.item == key.item && path.imageType == key.imageType
      && path in files && files == s.files[path := files[path]] && tag == cfg.hash(files[path])
  }

  ghost predicate NewRow(cfg: Config, s: State, key: Key)
  {
    cfg.source != "" && key.item in s.db.items && key.imageType in IMAGE_TYPES && key !in s.db.images
  }

  lemma WrittenImage(cfg: Config, s: State, key: Key, img: ItemImage)
    requires NewRow(cfg, s, key)
    ensures var w := ImageWritten(s.db, key, cfg.source, img);
      && w.outcome == (if Locked(s.db, CellOf(key)) then LockRefused else Written)
      && w.db.images == (if Locked(s.db, CellOf(key)) then s.db.images else s.db.images[key := RowOf(img)])
      && w.db.fetched == s.db.fetched && w.db.items == s.db.items
      && forall cell :: Locked(w.db, cell) <==> Locked(s.db, cell)
  {
    assert ImageField(key.imageType).Some?;
    hide ImageField, RowOf;
  }

  lemma WrittenOwn(cfg: Config, library: nat, s: State, key: Key, img: ItemImage, files: Files)
    requires NewRow(cfg, s, key) && Handed(cfg, s, key, img, files) && OwnFiles(s)
    ensures var t := State(ImageWritten(s.db, key, cfg.source, img).db, files);
      && OwnFiles(t)
      && (TagsRight(cfg, s) ==> TagsRight(cfg, t))
      && (OnDisk(cfg, library, s) ==> OnDisk(cfg, library, t))
  {
    WrittenImage(cfg, s, key, img);
    hide ImageWritten, Locked, CellOf;
    var t := State(ImageWritten(s.db, key, cfg.source, img).db, files);
    if OnDisk(cfg, library, s) {
      forall other
        ensures !Gone(cfg, library, t.db.images, t.files, other)
      {
        assert !Gone(cfg, library, s.db.images, s.files, other);
      }
    }
  }

  lemma WrittenImageKeeps(cfg: Config, library: nat, s: State, key: Key, img: ItemImage, files: Files)
    requires NewRow(cfg, s, key) && Handed(cfg, s, key, img, files)
    ensures Keeps(cfg, library, s, State(ImageWritten(s.db, key, cfg.source, img).db, files))
  {
    WrittenImage(cfg, s, key, img);
    hide ImageWritten, Locked, CellOf, OwnFiles, TagsRight, OnDisk, RowOf;
    if OwnFiles(s) {
      WrittenOwn(cfg, library, s, key, img, files);
    }
  }

  /** New bytes for an image without a row keep everything, also when no row follows. */
  lemma HandedKeeps(cfg: Config, library: nat, s: State, key: Key, img: ItemImage, files: Files)
    requires NewRow(cfg, s, key) && Handed(cfg, s, key, img, files)
    ensures Keeps(cfg, library, s, s.(files := files))
  {
    hide Locked, CellOf;
    if OnDisk(cfg, library, s) {
      forall other
        ensures !Gone(cfg, library, s.db.images, files, other)
      {
        assert !Gone(cfg, library, s.db.images, s.files, other);
      }
    }
  }

  /** The pairs that gained a stored row. */
  ghost function Gained(s: State, t: State): set<Key>
  {
    set key | key in t.db.images && key !in s.db.images && t.db.images[key].Held?
  }

  lemma GainedSplit(a: State, b: State, c: State)
    requires Grows(a, b) && Grows(b, c)
    ensures |Gained(a, c)| == |Gained(a, b)| + |Gained(b, c)|
  {
    hide CellOf;
    assert Gained(a, c) == Gained(a, b) + Gained(b, c);
    assert Gained(a, b) !! Gained(b, c);
  }

  lemma ImageStep(cfg: Config, library: nat, env: Env, md: Movie, key: Key, p: Imaging)
    requires cfg.source != "" && key.item in p.s.db.items && key.imageType in IMAGE_TYPES && !p.halted
    ensures var q := ImageTried(cfg, false, env, md, key in p.s.db.images, key, p);
      && Keeps(cfg, library, p.s, q.s)
      && q.s.db.fetched == p.s.db.fetched
      && (forall other :: other != key ==> (other in q.s.db.images <==> other in p.s.db.images))
      && (key in q.s.db.images <==>
            key in p.s.db.images || (ImageAnswered(cfg, env, md, key) && !Locked(p.s.db, CellOf(key))))
      && (q.halted ==> CutAt(env, md, key))
      && q.downloaded == p.downloaded + |Gained(p.s, q.s)|
  {
    var q := ImageTried(cfg, false, env, md, key in p.s.db.images, key, p);
    hide ImageWritten, Attempt, Keeps, Locked;
    if key in p.s.db.images {
      KeepsReflexive(cfg, library, p.s);
      assert Gained(p.s, q.s) == {};
    } else if key.imageType !in md.images && !env.writes(key) {
      KeepsReflexive(cfg, library, p.s);
      assert Gained(p.s, q.s) == {};
    } else if key.imageType !in md.images {
      WrittenImage(cfg, p.s, key, NoImage);
      WrittenImageKeeps(cfg, library, p.s, key, NoImage, p.s.files);
      assert Gained(p.s, q.s) == {};
    } else {
      var d := Downloaded(cfg, env, p.s.files, key, md.images[key.imageType]);
      DownloadedOwn(cfg, env, p.s, key, md.images[key.imageType]);
      if d.Fetched? && !env.writes(key) {
        HandedKeeps(cfg, library, p.s, key, d.img, d.files);
        assert Gained(p.s, q.s) == {};
      } else if d.Fetched? {
        WrittenImage(cfg, p.s, key, d.img);
        WrittenImageKeeps(cfg, library, p.s, key, d.img, d.files);
        assert Gained(p.s, q.s) == if Locked(p.s.db, CellOf(key)) then {} else {key};
      } else {
        KeepsReflexive(cfg, library, p.s);
        assert Gained(p.s, q.s) == {};
      }
    }
  }

  lemma DownloadedOwn(cfg: Config, env: Env, s: State, key: Key, c: Candidate)
    ensures var d := Downloaded(cfg, env, s.files, key, c);
      && (d.Fetched? <==> Arrives(cfg, env, key))
      && (d.Fetched? ==> d.img.ItemImage? && Handed(cfg, s, key, d.img, d.files))
  {
  }

  // ---- the images of one item ----

  /** A row the pass may add: its image is answered, and its field is not locked. */
  ghost predicate Addable(cfg: Config, env: Env, md: Movie, s: State, key: Key)
  {
    ImageAnswered(cfg, env, md, key) && !Locked(s.db, CellOf(key))
  }

  /** Rows are added only where they may be, and only of the types tried. */
  ghost predicate AddsOnly(cfg: Config, env: Env, item: Item, md: Movie, s: State, t: State, tried: seq<string>)
  {
    forall key :: key in t.db.images && key !in s.db.images ==>
      key.item == item && key.imageType in tried && Addable(cfg, env, md, s, key)
  }

  ghost predicate AddsAll(cfg: Config, env: Env, item: Item, md: Movie, s: State, t: State, tried: seq<string>)
  {
    forall key: Key :: key.item == item && key.imageType in tried && Addable(cfg, env, md, s, key) ==>
      key in t.db.images
  }

  lemma AddsNext(cfg: Config, env: Env, item: Item, md: Movie, s: State, p: State, q: State, tried: seq<string>,
                 imageType: string)
    requires Grows(s, p) && Grows(p, q)
    requires AddsOnly(cfg, env, item, md, s, p, tried) && AddsAll(cfg, env, item, md, s, p, tried)
    requires var key := Key(item, imageType);
      && (forall other :: other != key ==> (other in q.db.images <==> other in p.db.images))
      && (key in q.db.images <==> key in p.db.images || Addable(cfg, env, md, p, key))
    ensures AddsOnly(cfg, env, item, md, s, q, tried + [imageType]) &&
      AddsAll(cfg, env, item, md, s, q, tried + [imageType])
  {
    hide ImageAnswered, CellOf;
  }

  /** The item's images cannot be read, the network limits a download, or the database fails a row. */
  ghost predicate SomeCut(env: Env, item: Item, md: Movie)
  {
    !env.readable(item) || exists t :: t in IMAGE_TYPES && CutAt(env, md, Key(item, t))
  }

  ghost predicate CutAt(env: Env, md: Movie, key: Key)
  {
    !env.writes(key) || (key.imageType in md.images && env.image(key).ImageLimited?)
  }

  lemma {:induction false} ImagesStep(cfg: Config, library: nat, env: Env, item: Item, md: Movie, s: State, n: nat)
    requires n <= |IMAGE_TYPES| && cfg.source != "" && item in s.db.items
    ensures var q := ImagesTried(cfg, false, env, item, md, s, n);
      && Keeps(cfg, library, s, q.s) && q.s.db.fetched == s.db.fetched
      && AddsOnly(cfg, env, item, md, s, q.s, IMAGE_TYPES[..n])
      && (!q.halted ==> AddsAll(cfg, env, item, md, s, q.s, IMAGE_TYPES[..n]) && q.downloaded == |Gained(s, q.s)|)
      && (q.halted ==> SomeCut(env, item, md))
  {
    hide ImageTried, ImageAnswered, Orderly, TagsRight, OwnFiles, Locked, CellOf, Addable;
    if n == 0 {
      KeepsReflexive(cfg, library, s);
      assert Gained(s, s) == {};
    } else {
      ImagesStep(cfg, library, env, item, md, s, n - 1);
      var p := ImagesTried(cfg, false, env, item, md, s, n - 1);
      assert IMAGE_TYPES[..n] == IMAGE_TYPES[..n - 1] + [IMAGE_TYPES[n - 1]];
      if p.halted {
        ImagesHaltedStay(cfg, false, env, item, md, s, n - 1, n);
      } else {
        NextImage(cfg, library, env, item, md, s, p, IMAGE_TYPES[..n - 1], IMAGE_TYPES[n - 1]);
      }
    }
  }

  lemma NextImage(cfg: Config, library: nat, env: Env, item: Item, md: Movie, s: State, p: Imaging,
                  tried: seq<string>, imageType: string)
    requires cfg.source != "" && item in s.db.items && imageType in IMAGE_TYPES && imageType !in tried
    requires !p.halted && Keeps(cfg, library, s, p.s) && p.s.db.fetched == s.db.fetched &&
      p.downloaded == |Gained(s, p.s)|
    requires AddsOnly(cfg, env, item, md, s, p.s, tried) && AddsAll(cfg, env, item, md, s, p.s, tried)
    ensures var key := Key(item, imageType);
      var q := ImageTried(cfg, false, env, md, key in s.db.images, key, p);
      && Keeps(cfg, library, s, q.s) && q.s.db.fetched == s.db.fetched
      && AddsOnly(cfg, env, item, md, s, q.s, tried + [imageType]) &&
         AddsAll(cfg, env, item, md, s, q.s, tried + [imageType])
      && q.downloaded == |Gained(s, q.s)|
      && (q.halted ==> SomeCut(env, item, md))
  {
    hide ImageTried, ImageAnswered, Orderly, TagsRight, OwnFiles, Locked, CellOf;
    var key := Key(item, imageType);
    var q := ImageTried(cfg, false, env, md, key in p.s.db.images, key, p);
    ImageStep(cfg, library, env, md, key, p);
    assert key in s.db.images <==> key in p.s.db.images;
    KeepsTransitive(cfg, library, s, p.s, q.s);
    GainedSplit(s, p.s, q.s);
    AddsNext(cfg, env, item, md, s, p.s, q.s, tried, imageType);
  }

  // ---- the fields of one item ----

  ghost predicate HasScalar(md: Movie)
  {
    md.overview != "" || md.communityRating.Some? || md.officialRating != "" || md.releaseDate.Some?
  }

  ghost predicate Takes(cfg: Config, field: string, value: Option<Value>)
  {
    value.Some? ==> cfg.columns(field, value.value).Some?
  }

  ghost predicate FieldsTaken(cfg: Config, md: Movie)
  {
    && Takes(cfg, "overview", WordsOf(md.overview)) && Takes(cfg, "community_rating", ScoreOf(md.communityRating))
    && Takes(cfg, "official_rating", WordsOf(md.officialRating)) && Takes(cfg, "premiere_date", DayOf(md.releaseDate))
  }

  /** What writing fields leaves alone, and whether it creates the metadata row. */
  ghost predicate FieldsOnly(a: Db, b: Db, item: Item, creates: bool)
  {
    && b.items == a.items && b.images == a.images
    && b.fetched == (if creates then a.fetched + {item} else a.fetched)
    && (forall cell :: Locked(b, cell) <==> Locked(a, cell))
  }

  lemma PutStep(cfg: Config, p: Storing, item: Item, field: string, value: Option<Value>)
    requires cfg.source != "" && item in p.db.items && field in SCALARS && !p.failed
    ensures FieldsOnly(p.db, Put(cfg, p, item, field, value).db, item, value.Some?)
    ensures Takes(cfg, field, value) ==> !Put(cfg, p, item, field, value).failed
  {
  }

  lemma GenresStep(cfg: Config, p: Storing, item: Item, genres: seq<string>)
    requires cfg.source != "" && item in p.db.items
    ensures FieldsOnly(p.db, PutGenres(cfg, p, item, genres).db, item, false)
    ensures !p.failed ==> !PutGenres(cfg, p, item, genres).failed
  {
    hide Kept;
  }

  lemma FieldsChain(a: Db, b: Db, c: Db, item: Item, first: bool, second: bool)
    requires FieldsOnly(a, b, item, first) && FieldsOnly(b, c, item, second)
    ensures FieldsOnly(a, c, item, first || second)
  {
    hide Locked;
  }

  /** A later value is still to be put: nothing when an earlier one failed, which has made the row already. */
  lemma PutAfter(cfg: Config, db: Db, p: Storing, item: Item, made: bool, field: string, value: Option<Value>)
    requires cfg.source != "" && item in db.items && field in SCALARS && FieldsOnly(db, p.db, item, made) &&
      (p.failed ==> made)
    ensures var q := Put(cfg, p, item, field, value);
      && FieldsOnly(db, q.db, item, made || value.Some?) && (q.failed ==> made || value.Some?)
      && (!p.failed && Takes(cfg, field, value) ==> !q.failed)
  {
    hide FieldWritten;
    if p.failed {
      assert Put(cfg, p, item, field, value) == p;
    } else {
      PutStep(cfg, p, item, field, value);
      var q := Put(cfg, p, item, field, value);
      hide Put, FieldsOnly, Takes;
      FieldsChain(db, p.db, q.db, item, made, value.Some?);
    }
  }

  lemma ScalarNames()
    ensures "overview" in SCALARS && "community_rating" in SCALARS && "official_rating" in SCALARS &&
      "premiere_date" in SCALARS
  {
  }

  lemma FieldsStep(cfg: Config, db: Db, item: Item, md: Movie)
    requires cfg.source != "" && item in db.items
    ensures FieldsOnly(db, FieldsStored(cfg, db, item, md).db, item, HasScalar(md))
    ensures FieldsTaken(cfg, md) ==> !FieldsStored(cfg, db, item, md).failed
  {
    hide Put, PutGenres, FieldsOnly, Takes;
    ScalarNames();
    var p0 := Storing(db, 0, false);
    NothingPut(db, item);
    var p1 := Put(cfg, p0, item, "overview", WordsOf(md.overview));
    var p2 := Put(cfg, p1, item, "community_rating", ScoreOf(md.communityRating));
    var p3 := Put(cfg, p2, item, "official_rating", WordsOf(md.officialRating));
    var p4 := Put(cfg, p3, item, "premiere_date", DayOf(md.releaseDate));
    var m1 := WordsOf(md.overview).Some?;
    var m2 := m1 || ScoreOf(md.communityRating).Some?;
    var m3 := m2 || WordsOf(md.officialRating).Some?;
    PutAfter(cfg, db, p0, item, false, "overview", WordsOf(md.overview));
    PutAfter(cfg, db, p1, item, m1, "community_rating", ScoreOf(md.communityRating));
    PutAfter(cfg, db, p2, item, m2, "official_rating", WordsOf(md.officialRating));
    PutAfter(cfg, db, p3, item, m3, "premiere_date", DayOf(md.releaseDate));
    assert item in p4.db.items by {
      ItemsKept(db, p4.db, item, HasScalar(md));
    }
    GenresStep(cfg, p4, item, md.genres);
    FieldsChain(db, p4.db, PutGenres(cfg, p4, item, md.genres).db, item, HasScalar(md), false);
  }

  lemma NothingPut(db: Db, item: Item)
    ensures FieldsOnly(db, db, item, false)
  {
  }

  lemma ItemsKept(a: Db, b: Db, item: Item, creates: bool)
    requires FieldsOnly(a, b, item, creates)
    ensures a.items == b.items
  {
  }

  lemma FieldsKeep(cfg: Config, library: nat, s: State, db: Db, item: Item, creates: bool)
    requires FieldsOnly(s.db, db, item, creates)
    ensures Keeps(cfg, library, s, s.(db := db)) && Gained(s, s.(db := db)) == {}
    ensures forall cell :: Locked(db, cell) <==> Locked(s.db, cell)
  {
    hide CellOf, Locked;
    assert forall key :: Gone(cfg, library, db.images, s.files, key) <==> Gone(cfg, library, s.db.images, s.files, key);
  }

  // ---- one item ----

  /** An image row a pass may add. */
  ghost predicate MayAdd(cfg: Config, env: Env, s: State, key: Key)
  {
    && cfg.providerId(key.item) != "" && env.fetch(key.item).Answer? && key.imageType in IMAGE_TYPES
    && Addable(cfg, env, env.fetch(key.item).md, s, key)
  }

  /** An item a pass makes a metadata row for. */
  ghost predicate MayFetch(cfg: Config, env: Env, item: Item)
  {
    cfg.providerId(item) != "" && env.fetch(item).Answer? && HasScalar(env.fetch(item).md)
  }

  /** What may cut a pass short at an item. */
  ghost predicate Interrupts(cfg: Config, env: Env, item: Item)
  {
    env.stops(item) ||
    (cfg.providerId(item) != "" &&
     match env.fetch(item)
     case FetchLimited => true
     case FetchFailed => false
     case Answer(md) => !FieldsTaken(cfg, md) || SomeCut(env, item, md))
  }

  lemma AddableStays(cfg: Config, env: Env, md: Movie, s: State, t: State, key: Key)
    requires Locked(t.db, CellOf(key)) <==> Locked(s.db, CellOf(key))
    ensures Addable(cfg, env, md, s, key) <==> Addable(cfg, env, md, t, key)
  {
  }

  /** What one item's turn does to the rows. */
  ghost predicate Serves(cfg: Config, env: Env, item: Item, s: State, t: State, whole: bool)
  {
    && (forall key :: key in t.db.images && key !in s.db.images ==> key.item == item && MayAdd(cfg, env, s, key))
    && (whole ==> forall key: Key :: key.item == item && MayAdd(cfg, env, s, key) ==> key in t.db.images)
    && (forall other :: other in t.db.fetched ==> other in s.db.fetched || (other == item && MayFetch(cfg, env, item)))
    && (whole ==> MayFetch(cfg, env, item) ==> item in t.db.fetched)
  }

  lemma ItemStep(cfg: Config, library: nat, env: Env, item: Item, t: Tally)
    requires cfg.source != "" && item in t.s.db.items && !t.halted
    ensures var u := ItemDone(cfg, false, env, item, t);
      && Keeps(cfg, library, t.s, u.s)
      && Serves(cfg, env, item, t.s, u.s, !u.halted)
      && (!u.halted ==> u.downloaded == t.downloaded + |Gained(t.s, u.s)|)
      && (u.halted ==> Interrupts(cfg, env, item))
  {
    hide FieldsStored, ImagesTried, Keeps, Addable, FieldsTaken, HasScalar, SomeCut, Locked;
    var u := ItemDone(cfg, false, env, item, t);
    KeepsReflexive(cfg, library, t.s);
    assert Gained(t.s, t.s) == {};
    if cfg.providerId(item) != "" && env.fetch(item).Answer? {
      var md := env.fetch(item).md;
      var stored := FieldsStored(cfg, t.s.db, item, md);
      var s1 := t.s.(db := stored.db);
      FieldsStep(cfg, t.s.db, item, md);
      FieldsKeep(cfg, library, t.s, stored.db, item, HasScalar(md));
      forall key
        ensures Addable(cfg, env, md, t.s, key) <==> Addable(cfg, env, md, s1, key)
      {
        AddableStays(cfg, env, md, t.s, s1, key);
      }
      if !stored.failed {
        ImagesStep(cfg, library, env, item, md, s1, |IMAGE_TYPES|);
        var images := ImagesTried(cfg, false, env, item, md, s1, |IMAGE_TYPES|);
        assert IMAGE_TYPES[..|IMAGE_TYPES|] == IMAGE_TYPES;
        KeepsTransitive(cfg, library, t.s, s1, images.s);
        assert Gained(t.s, images.s) == Gained(s1, images.s);
      }
    }
  }

  // ---- the whole pass ----

  ghost predicate PassAdds(cfg: Config, env: Env, batch: seq<Item>, s: State, t: State, whole: bool)
  {
    && (forall key :: key in t.db.images && key !in s.db.images ==> key.item in batch && MayAdd(cfg, env, s, key))
    && (whole ==> forall key: Key :: key.item in batch && MayAdd(cfg, env, s, key) ==> key in t.db.images)
    && (forall item :: item in t.db.fetched ==> item in s.db.fetched || (item in batch && MayFetch(cfg, env, item)))
    && (whole ==> forall item :: item in s.db.fetched || (item in batch && MayFetch(cfg, env, item)) ==>
          item in t.db.fetched)
  }

  lemma PassNext(cfg: Config, env: Env, batch: seq<Item>, item: Item, s: State, t: State, u: State, whole: bool)
    requires Grows(s, t) && Grows(t, u) && PassAdds(cfg, env, batch, s, t, true) && Serves(cfg, env, item, t, u, whole)
    ensures PassAdds(cfg, env, batch + [item], s, u, whole)
  {
    hide Addable, MayFetch, Locked;
    forall key
      ensures MayAdd(cfg, env, s, key) <==> MayAdd(cfg, env, t, key)
    {
      if env.fetch(key.item).Answer? {
        AddableStays(cfg, env, env.fetch(key.item).md, s, t, key);
      }
    }
  }

  lemma {:induction false} PassStep(cfg: Config, library: nat, env: Env, batch: seq<Item>, s: State, n: nat)
    requires n <= |batch| && cfg.source != "" && forall item :: item in batch ==> item in s.db.items
    ensures var t := Passed(cfg, false, env, batch, s, n);
      && Keeps(cfg, library, s, t.s)
      && PassAdds(cfg, env, batch[..n], s, t.s, !t.halted)
      && (!t.halted ==> t.downloaded == |Gained(s, t.s)|)
      && (t.halted ==> exists item :: item in batch[..n] && Interrupts(cfg, env, item))
  {
    hide ItemDone, Orderly, OwnFiles, TagsRight, MayAdd, MayFetch, Interrupts, PassAdds, Serves, Locked, CellOf;
    if n == 0 {
      KeepsReflexive(cfg, library, s);
      NothingPassed(cfg, env, s);
    } else {
      PassStep(cfg, library, env, batch, s, n - 1);
      var t := Passed(cfg, false, env, batch, s, n - 1);
      assert batch[..n] == batch[..n - 1] + [batch[n - 1]];
      if t.halted {
        HaltedStays(cfg, false, env, batch, s, n - 1, n);
        PassMore(cfg, env, batch[..n - 1], batch[n - 1], s, t.s);
      } else {
        ItemStep(cfg, library, env, batch[n - 1], t);
        var u := Passed(cfg, false, env, batch, s, n);
        KeepsTransitive(cfg, library, s, t.s, u.s);
        PassNext(cfg, env, batch[..n - 1], batch[n - 1], s, t.s, u.s, !u.halted);
        GainedSplit(s, t.s, u.s);
      }
    }
  }

  lemma NothingPassed(cfg: Config, env: Env, s: State)
    ensures PassAdds(cfg, env, [], s, s, true) && Gained(s, s) == {}
  {
  }

  lemma PassMore(cfg: Config, env: Env, batch: seq<Item>, item: Item, s: State, t: State)
    requires PassAdds(cfg, env, batch, s, t, false)
    ensures PassAdds(cfg, env, batch + [item], s, t, false)
  {
  }

  // ---- before the pass ----

  lemma PreparedOrderly(cfg: Config, library: nat, s: State)
    requires OwnFiles(s)
    ensures var r := Prepared(cfg, library, s);
      && Orderly(cfg, library, r) && (TagsRight(cfg, s) ==> TagsRight(cfg, r))
      && r.db == s.db.(images := r.db.images)
      && (forall key :: key in r.db.images <==> key in s.db.images && !Gone(cfg, library, s.db.images, s.files, key))
      && (forall key :: key in r.db.images ==> r.db.images[key] == s.db.images[key])
  {
    var r := Prepared(cfg, library, s);
    forall key
      ensures Gone(cfg, library, s.db.images, r.files, key) <==> Gone(cfg, library, s.db.images, s.files, key)
    {
    }
    forall key
      ensures !Gone(cfg, library, r.db.images, r.files, key)
    {
      assert Gone(cfg, library, r.db.images, r.files, key) ==> Gone(cfg, library, s.db.images, r.files, key);
    }
  }

  /** Sweeping and reconciling, finished or not, repair and never harm. */
  lemma BegunOwn(cfg: Config, library: nat, env: Env, s: State)
    requires OwnFiles(s)
    ensures var r := Begun(cfg, library, env, s);
      && OwnFiles(r) && (TagsRight(cfg, s) ==> TagsRight(cfg, r))
      && (OnDisk(cfg, library, s) ==> r.db == s.db)
      && (forall key :: key in r.db.images ==> key in s.db.images && r.db.images[key] == s.db.images[key])
      && (!EndsEarly(cfg, library, env, s) ==> OnDisk(cfg, library, r) && r.db == s.db.(images := r.db.images))
      && (!EndsEarly(cfg, library, env, s) && env.stuck == {} ==> r == Prepared(cfg, library, s))
  {
    var swept := s.(files := Swept(s.files, env.stuck));
    if !EndsEarly(cfg, library, env, s) {
      ClearedWhole(cfg, library, env, swept);
      ReconciledOnDisk(cfg, library, swept);
    }
    forall key
      ensures Gone(cfg, library, swept.db.images, swept.files, key) <==>
        Gone(cfg, library, s.db.images, s.files, key)
    {
    }
    if OnDisk(cfg, library, s) {
      assert Begun(cfg, library, env, s).db.images == s.db.images;
    }
  }

  lemma ReconciledOnDisk(cfg: Config, library: nat, s: State)
    ensures OnDisk(cfg, library, Reconciled(cfg, library, s))
  {
    var r := Reconciled(cfg, library, s);
    forall key
      ensures !Gone(cfg, library, r.db.images, r.files, key)
    {
      assert Gone(cfg, library, r.db.images, r.files, key) ==> Gone(cfg, library, s.db.images, s.files, key);
    }
  }

  /** Leftovers go, and the database serves the start of the pass. */
  ghost predicate Starts(env: Env)
  {
    env.stuck == {} && env.lists && env.selects && forall key :: env.clears(key)
  }

  lemma StartsWalk(cfg: Config, library: nat, all: bool, env: Env, s: State)
    requires Starts(env)
    ensures !EndsEarly(cfg, library, env, s) && Begun(cfg, library, env, s) == Prepared(cfg, library, s)
    ensures Refreshed(cfg, library, all, env, s) == Walked(cfg, library, all, env, s)
  {
    hide Walked, Gone;
    ClearedWhole(cfg, library, env, s.(files := Swept(s.files, {})));
  }

  /** With nothing to clear only the listing and the selection can end a pass early. */
  lemma OrderlyStarts(cfg: Config, library: nat, env: Env, s: State)
    requires Orderly(cfg, library, s)
    ensures EndsEarly(cfg, library, env, s) <==> !env.lists || !env.selects
    ensures Begun(cfg, library, env, s) == s
  {
    assert Swept(s.files, env.stuck) == s.files;
    assert Uncleared(cfg, library, env, s) == {};
    BegunOwn(cfg, library, env, s);
  }

  /** Sweeping and reconciling change nothing when there is nothing to repair. */
  lemma PreparedUnchanged(cfg: Config, library: nat, s: State)
    requires Orderly(cfg, library, s)
    ensures Prepared(cfg, library, s) == s
  {
    assert Swept(s.files, {}) == s.files;
    assert Reconciled(cfg, library, s).db.images == s.db.images;
  }

  function KeysOf(item: Item): set<Key>
  {
    {Key(item, "primary"), Key(item, "backdrop"), Key(item, "logo")}
  }

  lemma KeysOfItem(item: Item)
    ensures |KeysOf(item)| == |IMAGE_TYPES|
    ensures forall key :: key in KeysOf(item) <==> key.item == item && key.imageType in IMAGE_TYPES
  {
    var p, b, l := Key(item, "primary"), Key(item, "backdrop"), Key(item, "logo");
    assert p != b && b != l && p != l;
    assert |{p, b}| == 2;
    assert KeysOf(item) == {p, b} + {l};
  }

  lemma NeedsExactly(s: State, item: Item)
    requires OwnFiles(s)
    ensures Needs(s.db, item) <==> item !in s.db.fetched || exists t :: t in IMAGE_TYPES && Key(item, t) !in s.db.images
  {
    var rows, every := ImageRows(s.db, item), KeysOf(item);
    KeysOfItem(item);
    hide KeysOf;
    assert rows <= every;
    if t :| t in IMAGE_TYPES && Key(item, t) !in s.db.images {
      Lists.SubsetSize(rows, every - {Key(item, t)});
    } else {
      forall key | key in every
        ensures key in rows
      {
        assert key == Key(item, key.imageType);
      }
      assert rows == every;
    }
  }

  /** The library's identified items. */
  ghost predicate Ours(cfg: Config, library: nat, item: Item)
  {
    item in cfg.order && Eligible(cfg, library, item)
  }

  function EligibleIn(cfg: Config, library: nat): Item -> bool
  {
    (item: Item) => Eligible(cfg, library, item)
  }

  ghost predicate OneBatch(cfg: Config, library: nat)
  {
    |Lists.Filter(EligibleIn(cfg, library), cfg.order)| <= BATCH
  }

  /** Every item with something missing has a place in the pass. */
  ghost predicate AllTaken(cfg: Config, library: nat, ready: State)
  {
    forall item :: Ours(cfg, library, item) && Needs(ready.db, item) ==> item in Selected(cfg, library, false, ready.db)
  }

  lemma Taken(found: seq<Item>)
    ensures var batch := if |found| <= BATCH then found else found[..BATCH];
      && (batch == [] <==> found == [])
      && (forall item :: item in batch ==> item in found)
      && (|found| <= BATCH ==> batch == found)
  {
  }

  lemma SelectedOurs(cfg: Config, library: nat, all: bool, db: Db)
    ensures forall item :: item in Selected(cfg, library, all, db) ==>
      Ours(cfg, library, item) && (all || Needs(db, item))
    ensures Selected(cfg, library, all, db) == [] <==>
      forall item :: Ours(cfg, library, item) ==> !(all || Needs(db, item))
    ensures OneBatch(cfg, library) ==> forall item :: Ours(cfg, library, item) && (all || Needs(db, item)) ==>
      item in Selected(cfg, library, all, db)
  {
    hide Needs, Eligible, Lists.Filter;
    var wanted := Wanted(cfg, library, all, db);
    var found := Lists.Filter(wanted, cfg.order);
    Lists.FilterMembers(wanted, cfg.order);
    Taken(found);
    assert forall item :: item in found <==> Ours(cfg, library, item) && (all || Needs(db, item));
    if found != [] {
      assert found[0] in found;
    }
    Lists.FilterWeaker(wanted, EligibleIn(cfg, library), cfg.order);
  }

  /** That is when at most two hundred items have something missing. */
  lemma AllTakenExactly(cfg: Config, library: nat, ready: State)
    requires Lists.Distinct(cfg.order)
    ensures AllTaken(cfg, library, ready) <==>
      |Lists.Filter(Wanted(cfg, library, false, ready.db), cfg.order)| <= BATCH
  {
    hide Needs, Eligible, Lists.Filter;
    var wanted := Wanted(cfg, library, false, ready.db);
    var found := Lists.Filter(wanted, cfg.order);
    Lists.FilterMembers(wanted, cfg.order);
    Lists.FilterDistinct(wanted, cfg.order);
    if |found| > BATCH {
      assert found[BATCH] in found && found[BATCH] !in found[..BATCH];
    }
  }

  // ---- main results ----

  /** Every identified item of the library has its metadata row and an answer for every image type. */
  ghost predicate Complete(cfg: Config, library: nat, s: State)
  {
    forall item :: Ours(cfg, library, item) ==>
      item in s.db.fetched && forall t :: t in IMAGE_TYPES ==> Key(item, t) in s.db.images
  }

  /** No image field is locked without a row whose file, if it has one, is there. */
  ghost predicate NoLockedGap(cfg: Config, library: nat, s: State)
  {
    forall item, t :: Ours(cfg, library, item) && t in IMAGE_TYPES && Locked(s.db, CellOf(Key(item, t))) ==>
      Key(item, t) in s.db.images && !Gone(cfg, library, s.db.images, s.files, Key(item, t))
  }

  /**
   The database serves the whole pass, nothing stops it, the provider knows every item and answers with at
   least one scalar field the columns take, and every download succeeds.
   */
  ghost predicate AnswersAll(cfg: Config, library: nat, env: Env)
  {
    Starts(env) && forall item :: Ours(cfg, library, item) ==> AnswersItem(cfg, env, item)
  }

  ghost predicate AnswersItem(cfg: Config, env: Env, item: Item)
  {
    && !env.stops(item) && env.readable(item) && cfg.providerId(item) != "" && env.fetch(item).Answer?
    && HasScalar(env.fetch(item).md) && FieldsTaken(cfg, env.fetch(item).md)
    && forall t :: t in IMAGE_TYPES ==> ImageAnswered(cfg, env, env.fetch(item).md, Key(item, t))
  }

  /** A refresh selects nothing, and then changes nothing and ends well unless a read fails, exactly when complete. */
  lemma CompleteSelectsNothing(cfg: Config, library: nat, env: Env, s: State)
    requires Orderly(cfg, library, s)
    ensures Selected(cfg, library, false, s.db) == [] <==> Complete(cfg, library, s)
    ensures Complete(cfg, library, s) ==>
      Refreshed(cfg, library, false, env, s) == Tally(s, 0, 0, 0, !env.lists || !env.selects)
  {
    hide Selected, Needs, Ours, Prepared, Orderly, OwnFiles, EndsEarly, Begun;
    OrderlyStarts(cfg, library, env, s);
    PreparedUnchanged(cfg, library, s);
    SelectedOurs(cfg, library, false, s.db);
    forall item
      ensures Needs(s.db, item) <==>
        item !in s.db.fetched || exists t :: t in IMAGE_TYPES && Key(item, t) !in s.db.images
    {
      OrderlyOwn(cfg, library, s);
      NeedsExactly(s, item);
    }
  }

  lemma OrderlyOwn(cfg: Config, library: nat, s: State)
    requires Orderly(cfg, library, s)
    ensures OwnFiles(s)
  {
  }

  /** An answered item does not cut the pass short, and gets every row that is not locked. */
  lemma AnsweredItem(cfg: Config, env: Env, s: State, item: Item)
    requires AnswersItem(cfg, env, item)
    ensures !Interrupts(cfg, env, item) && MayFetch(cfg, env, item)
    ensures forall t :: t in IMAGE_TYPES ==>
      (MayAdd(cfg, env, s, Key(item, t)) <==> !Locked(s.db, CellOf(Key(item, t))))
  {
    hide HasScalar, FieldsTaken, Locked, CellOf, Attempt;
  }

  /**
   One ordinary pass from any state, a wiped cache included, over a library of any size that is answered
   in full: it runs to its end, every stored path of the library is on disk, tags stay right, and the
   library is complete exactly when no image was locked without one and the pass took every item that had
   something missing.
   */
  lemma RefreshSettles(cfg: Config, library: nat, env: Env, s: State)
    requires Catalogued(cfg, s) && OwnFiles(s) && AnswersAll(cfg, library, env)
    ensures var t := Refreshed(cfg, library, false, env, s);
      && !t.halted && Orderly(cfg, library, t.s)
      && (TagsRight(cfg, s) ==> TagsRight(cfg, t.s))
      && (Complete(cfg, library, t.s) <==>
            NoLockedGap(cfg, library, s) && AllTaken(cfg, library, Prepared(cfg, library, s)))
    ensures OneBatch(cfg, library) ==> AllTaken(cfg, library, Prepared(cfg, library, s))
  {
    hide Selected, Prepared, Orderly, OwnFiles, TagsRight, Interrupts, MayFetch, MayAdd, AnswersItem, Needs, Ours,
      Passed, Locked, CellOf, Gone;
    var ready := Prepared(cfg, library, s);
    StartsWalk(cfg, library, false, env, s);
    PreparedOrderly(cfg, library, s);
    OrderlyOwn(cfg, library, ready);
    var batch := Selected(cfg, library, false, ready.db);
    SelectedOurs(cfg, library, false, ready.db);
    OursListed(cfg, library);
    PassStep(cfg, library, env, batch, ready, |batch|);
    assert batch[..|batch|] == batch;
    var t := Refreshed(cfg, library, false, env, s);
    forall item | Ours(cfg, library, item)
      ensures !Interrupts(cfg, env, item) && MayFetch(cfg, env, item)
      ensures forall i :: i in IMAGE_TYPES ==>
        (MayAdd(cfg, env, ready, Key(item, i)) <==> !Locked(ready.db, CellOf(Key(item, i))))
      ensures Needs(ready.db, item) <==>
        item !in ready.db.fetched || exists i :: i in IMAGE_TYPES && Key(item, i) !in ready.db.images
    {
      AnsweredItem(cfg, env, ready, item);
      NeedsExactly(ready, item);
    }
    Unprepared(s, ready);
    SettledRows(cfg, library, env, batch, s, ready, t.s);
  }

  lemma OursListed(cfg: Config, library: nat)
    ensures forall item :: Ours(cfg, library, item) ==> item in cfg.order
  {
  }

  lemma Unprepared(s: State, ready: State)
    requires ready.db == s.db.(images := ready.db.images)
    ensures forall cell :: Locked(ready.db, cell) <==> Locked(s.db, cell)
  {
  }

  lemma SettledRows(cfg: Config, library: nat, env: Env, batch: seq<Item>, s: State, ready: State, t: State)
    requires forall key :: key in ready.db.images <==>
      key in s.db.images && !Gone(cfg, library, s.db.images, s.files, key)
    requires forall cell :: Locked(ready.db, cell) <==> Locked(s.db, cell)
    requires Grows(ready, t) && PassAdds(cfg, env, batch, ready, t, true)
    requires forall item :: Ours(cfg, library, item) ==>
      && MayFetch(cfg, env, item)
      && (forall i :: i in IMAGE_TYPES ==>
            (MayAdd(cfg, env, ready, Key(item, i)) <==> !Locked(ready.db, CellOf(Key(item, i)))))
      && (Needs(ready.db, item) <==>
            item !in ready.db.fetched || exists i :: i in IMAGE_TYPES && Key(item, i) !in ready.db.images)
    ensures Complete(cfg, library, t) <==>
      NoLockedGap(cfg, library, s) && forall item :: Ours(cfg, library, item) && Needs(ready.db, item) ==> item in batch
  {
    hide MayFetch, MayAdd, Needs, Ours, Locked, CellOf, Gone;
    forall item, i | Ours(cfg, library, item) && i in IMAGE_TYPES
      ensures Key(item, i) in t.db.images <==>
        Key(item, i) in ready.db.images || (item in batch && !Locked(s.db, CellOf(Key(item, i))))
    {
      assert Key(item, i).item == item;
    }
    assert forall item :: Ours(cfg, library, item) ==>
      (item in t.db.fetched <==> item in ready.db.fetched || item in batch);
  }

  /** The pass after that selects nothing and changes nothing, whatever the provider would say. */
  lemma RefreshIsFixpoint(cfg: Config, library: nat, env: Env, again: Env, s: State)
    requires Catalogued(cfg, s) && OwnFiles(s) && AnswersAll(cfg, library, env)
    requires NoLockedGap(cfg, library, s) && AllTaken(cfg, library, Prepared(cfg, library, s))
    ensures var t := Refreshed(cfg, library, false, env, s).s;
      && Complete(cfg, library, t) && Orderly(cfg, library, t)
      && (TagsRight(cfg, s) ==> TagsRight(cfg, t))
      && Selected(cfg, library, false, Prepared(cfg, library, t).db) == []
      && Refreshed(cfg, library, false, again, t) == Tally(t, 0, 0, 0, !again.lists || !again.selects)
  {
    hide Refreshed, Selected, Complete, Orderly, OwnFiles, TagsRight, Catalogued, OneBatch, AnswersAll, NoLockedGap,
      AllTaken, Prepared;
    var t := Refreshed(cfg, library, false, env, s).s;
    RefreshSettles(cfg, library, env, s);
    PreparedUnchanged(cfg, library, t);
    CompleteSelectsNothing(cfg, library, again, t);
  }

  ghost function Missing(cfg: Config, library: nat, s: State): set<Key>
  {
    set item, t | item in cfg.order && t in IMAGE_TYPES && Eligible(cfg, library, item) &&
      Key(item, t) !in s.db.images :: Key(item, t)
  }

  /**
   Whatever fails, and when no file of the library is lost from outside: the missing pairs never grow;
   each that goes was answered and not locked; a pass that is not cut short clears each such pair of
   the items it selected, and counts exactly those of them it downloaded.
   */
  lemma MissingShrinks(cfg: Config, library: nat, env: Env, s: State)
    requires Catalogued(cfg, s) && OwnFiles(s) && OnDisk(cfg, library, s)
    ensures var t := Refreshed(cfg, library, false, env, s);
      var before, after := Missing(cfg, library, s), Missing(cfg, library, t.s);
      && after <= before
      && (forall key :: key in before - after ==> MayAdd(cfg, env, s, key))
      && (!t.halted ==>
            && (forall key :: key in before && key.item in Selected(cfg, library, false, s.db) ==>
                  MayAdd(cfg, env, s, key) ==> key !in after)
            && t.downloaded == |set key | key in before - after && t.s.db.images[key].Held?|)
  {
    hide Selected, OwnFiles, TagsRight, Interrupts, MayFetch, MayAdd, Needs, Passed, Orderly, Gone, Locked, CellOf,
      Begun, EndsEarly, OnDisk;
    var ready := Begun(cfg, library, env, s);
    BegunOwn(cfg, library, env, s);
    assert ready.db == s.db;
    if EndsEarly(cfg, library, env, s) {
      return;
    }
    var batch := Selected(cfg, library, false, ready.db);
    SelectedOurs(cfg, library, false, ready.db);
    PassStep(cfg, library, env, batch, ready, |batch|);
    assert batch[..|batch|] == batch;
    var t := Refreshed(cfg, library, false, env, s);
    forall key
      ensures MayAdd(cfg, env, s, key) <==> MayAdd(cfg, env, ready, key)
    {
      SameRowsSameAdds(cfg, env, s, ready, key);
    }
    forall key | key in t.s.db.images && key !in s.db.images
      ensures Ours(cfg, library, key.item) && key.imageType in IMAGE_TYPES
    {
      MayAddType(cfg, env, ready, key);
    }
    MissingGone(cfg, library, s, t.s);
    assert Gained(ready, t.s) == Gained(s, t.s);
  }

  /** The pairs no longer missing are those that gained a row. */
  lemma MissingGone(cfg: Config, library: nat, s: State, t: State)
    requires forall key :: key in s.db.images ==> key in t.db.images
    requires forall key: Key :: key in t.db.images && key !in s.db.images ==>
      Ours(cfg, library, key.item) && key.imageType in IMAGE_TYPES
    ensures var before, after := Missing(cfg, library, s), Missing(cfg, library, t);
      && after <= before
      && (forall key: Key :: key in before - after <==> key in t.db.images && key !in s.db.images)
      && Gained(s, t) == set key | key in before - after && t.db.images[key].Held?
  {
    hide Eligible;
  }

  lemma SameRowsSameAdds(cfg: Config, env: Env, s: State, t: State, key: Key)
    requires s.db == t.db
    ensures MayAdd(cfg, env, s, key) <==> MayAdd(cfg, env, t, key)
  {
  }

  lemma MayAddType(cfg: Config, env: Env, s: State, key: Key)
    requires MayAdd(cfg, env, s, key)
    ensures key.imageType in IMAGE_TYPES
  {
  }

  // ---- names, over every pass ----

  lemma PutOwn(cfg: Config, p: Storing, item: Item, field: string, value: Option<Value>)
    ensures Put(cfg, p, item, field, value).db.images == p.db.images
  {
  }

  lemma FieldsOwn(cfg: Config, db: Db, item: Item, md: Movie)
    ensures FieldsStored(cfg, db, item, md).db.images == db.images
  {
    hide Put, GenresWritten;
    var p1 := Put(cfg, Storing(db, 0, false), item, "overview", WordsOf(md.overview));
    var p2 := Put(cfg, p1, item, "community_rating", ScoreOf(md.communityRating));
    var p3 := Put(cfg, p2, item, "official_rating", WordsOf(md.officialRating));
    PutOwn(cfg, Storing(db, 0, false), item, "overview", WordsOf(md.overview));
    PutOwn(cfg, p1, item, "community_rating", ScoreOf(md.communityRating));
    PutOwn(cfg, p2, item, "official_rating", WordsOf(md.officialRating));
    PutOwn(cfg, p3, item, "premiere_date", DayOf(md.releaseDate));
    GenresOwn(cfg, ScalarsStored(cfg, db, item, md), item, md.genres);
  }

  lemma GenresOwn(cfg: Config, p: Storing, item: Item, genres: seq<string>)
    ensures PutGenres(cfg, p, item, genres).db.images == p.db.images
  {
  }

  lemma ImageOwn(cfg: Config, all: bool, env: Env, md: Movie, had: bool, key: Key, p: Imaging)
    requires OwnFiles(p.s) && key.imageType in IMAGE_TYPES
    ensures OwnFiles(ImageTried(cfg, all, env, md, had, key, p).s)
  {
    hide ImageField, Locked;
    if key.imageType in md.images {
      DownloadedOwn(cfg, env, p.s, key, md.images[key.imageType]);
    }
    hide Attempt;
  }

  lemma {:induction false} ImagesOwn(cfg: Config, all: bool, env: Env, item: Item, md: Movie, s: State, n: nat)
    requires n <= |IMAGE_TYPES| && OwnFiles(s)
    ensures OwnFiles(ImagesTried(cfg, all, env, item, md, s, n).s)
  {
    hide ImageTried, OwnFiles;
    if n > 0 {
      ImagesOwn(cfg, all, env, item, md, s, n - 1);
      var key := Key(item, IMAGE_TYPES[n - 1]);
      ImageOwn(cfg, all, env, md, key in s.db.images, key, ImagesTried(cfg, all, env, item, md, s, n - 1));
    }
  }

  lemma ItemOwn(cfg: Config, all: bool, env: Env, item: Item, t: Tally)
    requires OwnFiles(t.s)
    ensures OwnFiles(ItemDone(cfg, all, env, item, t).s)
  {
    hide FieldsStored, ImagesTried;
    if env.fetch(item).Answer? {
      var stored := FieldsStored(cfg, t.s.db, item, env.fetch(item).md);
      FieldsOwn(cfg, t.s.db, item, env.fetch(item).md);
      ImagesOwn(cfg, all, env, item, env.fetch(item).md, t.s.(db := stored.db), |IMAGE_TYPES|);
    }
  }

  lemma {:induction false} PassOwn(cfg: Config, all: bool, env: Env, batch: seq<Item>, s: State, n: nat)
    requires n <= |batch| && OwnFiles(s)
    ensures OwnFiles(Passed(cfg, all, env, batch, s, n).s)
  {
    hide ItemDone, OwnFiles;
    if n > 0 {
      PassOwn(cfg, all, env, batch, s, n - 1);
      ItemOwn(cfg, all, env, batch[n - 1], Passed(cfg, all, env, batch, s, n - 1));
    }
  }

  /** Every pass, ordinary or full, whatever fails in it, keeps each row on a file of its own item and type. */
  lemma RefreshKeepsOwnFiles(cfg: Config, library: nat, all: bool, env: Env, s: State)
    requires OwnFiles(s)
    ensures OwnFiles(Refreshed(cfg, library, all, env, s).s)
  {
    hide OwnFiles, Selected, Prepared, Begun, EndsEarly;
    BegunOwn(cfg, library, env, s);
    var ready := Begun(cfg, library, env, s);
    var batch := Selected(cfg, library, all, ready.db);
    PassOwn(cfg, all, env, batch, ready, |batch|);
  }
}
