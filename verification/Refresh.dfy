/**
 The metadata refresh (internal/service/metadata.go, internal/service/artwork.go): a pass that sweeps,
 reconciles, selects the items with something missing and stores what the provider answers. The
 provider and the network are parameters; the database itself answers.
 */
module Refresh {
  import opened Text
  import opened ArtworkStore
  import opened MetadataRows
  import Lists

  const BATCH := 200

  datatype Candidate = Candidate(url: string, width: int, height: int)

  /** What the provider says of a film. An empty text or an absent value is one it does not know. */
  datatype Movie = Movie(
    overview: string, communityRating: Option<real>, officialRating: string, releaseDate: Option<int>,
    genres: seq<string>, images: map<string, Candidate>)

  datatype Fetch = Answer(md: Movie) | FetchFailed | FetchLimited

  datatype Response = Response(contentType: string, body: Body) | ImageFailed | ImageLimited

  /**
   What happens during one pass: what the provider and the network answer, which system call fails, what
   makes a temporary name new, which leftover files cannot be removed, and what the database does. It may
   fail to list the stored images, to delete a row (those the query lists behind it are then not reached),
   to select the items, to read an item's images or to write an image's row. The pass may be cancelled,
   or a read fail, as it comes to an item.
   */
  datatype Env = Env(
    fetch: Item -> Fetch, image: Key -> Response, fault: Key -> Fault, nonce: Key -> nat,
    stuck: set<Path>, lists: bool, clears: Key -> bool, selects: bool, stops: Item -> bool, readable: Item -> bool,
    writes: Key -> bool)

  /** What does not change during a pass. `order` lists the items by creation, as the query does. */
  datatype Config = Config(
    columns: Columns, source: string, letters: Letters, hash: Digest, max: nat,
    order: seq<Item>, library: Item -> nat, identified: Item -> bool, providerId: Item -> string)

  datatype State = State(db: Db, files: Files)

  // ---- reconciling and selecting ----

  /** A row of the library whose file is no longer on disk. */
  predicate Gone(cfg: Config, library: nat, images: map<Key, Image>, files: Files, key: Key)
  {
    key in images && images[key].Held? && cfg.library(key.item) == library && images[key].path !in files
  }

  function Reconciled(cfg: Config, library: nat, s: State): State
  {
    var left := map key | key in s.db.images && !Gone(cfg, library, s.db.images, s.files, key) :: s.db.images[key];
    s.(db := s.db.(images := left))
  }

  /** Rows whose file is gone and that a failing delete keeps. */
  function Uncleared(cfg: Config, library: nat, env: Env, s: State): set<Key>
  {
    set key | key in s.db.images && Gone(cfg, library, s.db.images, s.files, key) && !env.clears(key)
  }

  /** What reconciling leaves, finished or not. */
  function Cleared(cfg: Config, library: nat, env: Env, s: State): State
  {
    if !env.lists then s
    else
      var left := map key | key in s.db.images &&
        (!Gone(cfg, library, s.db.images, s.files, key) || !env.clears(key)) :: s.db.images[key];
      s.(db := s.db.(images := left))
  }

  predicate ReconcileFails(cfg: Config, library: nat, env: Env, s: State)
  {
    !env.lists || Uncleared(cfg, library, env, s) != {}
  }

  lemma NotListed(cfg: Config, library: nat, env: Env, s: State)
    requires !env.lists
    ensures Cleared(cfg, library, env, s) == s && ReconcileFails(cfg, library, env, s)
  {
  }

  lemma ClearedWhole(cfg: Config, library: nat, env: Env, s: State)
    requires !ReconcileFails(cfg, library, env, s)
    ensures Cleared(cfg, library, env, s) == Reconciled(cfg, library, s)
  {
    hide Gone;
    assert forall key :: key in s.db.images && Gone(cfg, library, s.db.images, s.files, key) ==>
      env.clears(key) || key in Uncleared(cfg, library, env, s);
  }

  function ImageRows(db: Db, item: Item): set<Key>
  {
    set key | key in db.images && key.item == item
  }

  /** Never fetched, or short of an image row. */
  predicate Needs(db: Db, item: Item)
  {
    item !in db.fetched || |ImageRows(db, item)| < |IMAGE_TYPES|
  }

  predicate Eligible(cfg: Config, library: nat, item: Item)
  {
    cfg.identified(item) && cfg.library(item) == library
  }

  function Wanted(cfg: Config, library: nat, all: bool, db: Db): Item -> bool
  {
    (item: Item) => Eligible(cfg, library, item) && (all || Needs(db, item))
  }

  function Selected(cfg: Config, library: nat, all: bool, db: Db): (batch: seq<Item>)
    ensures |batch| <= BATCH
  {
    var found := Lists.Filter(Wanted(cfg, library, all, db), cfg.order);
    if |found| <= BATCH then found else found[..BATCH]
  }

  // ---- fields ----

  datatype Storing = Storing(db: Db, skipped: nat, failed: bool)

  /** A value the provider does not know is not written. */
  function Put(cfg: Config, p: Storing, item: Item, field: string, value: Option<Value>): Storing
  {
    if p.failed || value.None? then p
    else
      var w := FieldWritten(cfg.columns, p.db, Cell(item, field), cfg.source, value.value);
      Storing(w.db, p.skipped + (if w.outcome.LockRefused? then 1 else 0), w.outcome.Failed?)
  }

  function PutGenres(cfg: Config, p: Storing, item: Item, genres: seq<string>): Storing
  {
    if p.failed || genres == [] then p
    else
      var w := GenresWritten(p.db, item, cfg.source, genres);
      Storing(w.db, p.skipped + (if w.outcome.LockRefused? then 1 else 0), w.outcome.Failed?)
  }

  function WordsOf(s: string): Option<Value>
  {
    if s == "" then None else Some(Words(s))
  }

  function ScoreOf(r: Option<real>): Option<Value>
  {
    match r case None => None case Some(x) => Some(Score(x))
  }

  function DayOf(d: Option<int>): Option<Value>
  {
    match d case None => None case Some(x) => Some(Day(x))
  }

  function ScalarsStored(cfg: Config, db: Db, item: Item, md: Movie): Storing
  {
    var p1 := Put(cfg, Storing(db, 0, false), item, "overview", WordsOf(md.overview));
    var p2 := Put(cfg, p1, item, "community_rating", ScoreOf(md.communityRating));
    var p3 := Put(cfg, p2, item, "official_rating", WordsOf(md.officialRating));
    Put(cfg, p3, item, "premiere_date", DayOf(md.releaseDate))
  }

  function FieldsStored(cfg: Config, db: Db, item: Item, md: Movie): Storing
  {
    PutGenres(cfg, ScalarsStored(cfg, db, item, md), item, md.genres)
  }

  // ---- images ----

  datatype Download = Fetched(files: Files, img: ItemImage) | NotFetched | Limited

  function Downloaded(cfg: Config, env: Env, files: Files, key: Key, c: Candidate): Download
  {
    match env.image(key)
    case ImageLimited => Limited
    case ImageFailed => NotFetched
    case Response(contentType, body) =>
      match Attempt(cfg.letters, cfg.hash, cfg.max, key.item, key.imageType, contentType, body, env.fault(key))
      case Refused(_) => NotFetched
      case Stored(saved) =>
        Fetched(files[saved.path := body.data],
            ItemImage(saved.path, saved.tag, saved.contentType, c.width, c.height, c.url))
  }

  datatype Imaging = Imaging(s: State, downloaded: nat, skipped: nat, halted: bool)

  /** The row of an image, written unless the database fails. */
  function RowWritten(cfg: Config, env: Env, db: Db, key: Key, img: ItemImage): Effect
  {
    if env.writes(key) then ImageWritten(db, key, cfg.source, img) else Effect(db, Failed)
  }

  /** One image type: skipped when recorded, a negative when not offered, otherwise downloaded. */
  function ImageTried(cfg: Config, all: bool, env: Env, md: Movie, had: bool, key: Key, p: Imaging): Imaging
  {
    if p.halted || (had && !all) then p
    else if key.imageType !in md.images then
      var w := RowWritten(cfg, env, p.s.db, key, NoImage);
      Imaging(p.s.(db := w.db), p.downloaded, p.skipped + (if w.outcome.LockRefused? then 1 else 0), w.outcome.Failed?)
    else
      match Downloaded(cfg, env, p.s.files, key, md.images[key.imageType])
      case Limited => p.(halted := true)
      case NotFetched => p
      case Fetched(files, img) =>
        var w := RowWritten(cfg, env, p.s.db, key, img);
        Imaging(State(w.db, files), p.downloaded + (if w.outcome.Written? then 1 else 0),
                p.skipped + (if w.outcome.LockRefused? then 1 else 0), w.outcome.Failed?)
  }

  /** The first n image types of an item; none when its images cannot be read. */
  function ImagesTried(cfg: Config, all: bool, env: Env, item: Item, md: Movie, s: State, n: nat): Imaging
    requires n <= |IMAGE_TYPES|
  {
    if n == 0 then Imaging(s, 0, 0, !env.readable(item))
    else
      var key := Key(item, IMAGE_TYPES[n - 1]);
      ImageTried(cfg, all, env, md, key in s.db.images, key, ImagesTried(cfg, all, env, item, md, s, n - 1))
  }

  // ---- the pass ----

  datatype Tally = Tally(s: State, fetched: nat, downloaded: nat, skipped: nat, halted: bool)

  /** One item. Being stopped, rate limiting, or a write the database refuses ends the pass. */
  function ItemDone(cfg: Config, all: bool, env: Env, item: Item, t: Tally): Tally
  {
    if t.halted then t
    else if env.stops(item) then t.(halted := true)
    else if cfg.providerId(item) == "" then t
    else
      match env.fetch(item)
      case FetchLimited => t.(halted := true)
      case FetchFailed => t
      case Answer(md) =>
        var stored := FieldsStored(cfg, t.s.db, item, md);
        var s1 := t.s.(db := stored.db);
        if stored.failed then t.(s := s1, halted := true)
        else
          var images := ImagesTried(cfg, all, env, item, md, s1, |IMAGE_TYPES|);
          var skipped := t.skipped + stored.skipped;
          if images.halted then t.(s := images.s, fetched := t.fetched + 1, skipped := skipped, halted := true)
          else Tally(images.s, t.fetched + 1, t.downloaded + images.downloaded, skipped + images.skipped, false)
  }

  function Passed(cfg: Config, all: bool, env: Env, batch: seq<Item>, s: State, n: nat): Tally
    requires n <= |batch|
  {
    if n == 0 then Tally(s, 0, 0, 0, false)
    else ItemDone(cfg, all, env, batch[n - 1], Passed(cfg, all, env, batch, s, n - 1))
  }

  /** The state the selection sees, when all leftovers went and reconciling came to its end. */
  function Prepared(cfg: Config, library: nat, s: State): State
  {
    Reconciled(cfg, library, s.(files := Swept(s.files, {})))
  }

  /** What sweeping and reconciling leave, finished or not. */
  function Begun(cfg: Config, library: nat, env: Env, s: State): State
  {
    Cleared(cfg, library, env, s.(files := Swept(s.files, env.stuck)))
  }

  /** Whether the pass ends before its first item. */
  predicate EndsEarly(cfg: Config, library: nat, env: Env, s: State)
  {
    ReconcileFails(cfg, library, env, s.(files := Swept(s.files, env.stuck))) || !env.selects
  }

  function Refreshed(cfg: Config, library: nat, all: bool, env: Env, s: State): Tally
  {
    if EndsEarly(cfg, library, env, s) then Tally(Begun(cfg, library, env, s), 0, 0, 0, true)
    else Walked(cfg, library, all, env, s)
  }

  /** The pass once it has selected its items. */
  function Walked(cfg: Config, library: nat, all: bool, env: Env, s: State): Tally
  {
    var ready := Begun(cfg, library, env, s);
    var batch := Selected(cfg, library, all, ready.db);
    Passed(cfg, all, env, batch, ready, |batch|)
  }

  lemma {:induction false} HaltedStays(cfg: Config, all: bool, env: Env, batch: seq<Item>, s: State, m: nat, n: nat)
    requires m <= n <= |batch| && Passed(cfg, all, env, batch, s, m).halted
    ensures Passed(cfg, all, env, batch, s, n) == Passed(cfg, all, env, batch, s, m)
  {
    if m < n {
      HaltedStays(cfg, all, env, batch, s, m, n - 1);
    }
  }

  lemma {:induction false} ImagesHaltedStay(cfg: Config, all: bool, env: Env, item: Item, md: Movie, s: State, m: nat,
                                            n: nat)
    requires m <= n <= |IMAGE_TYPES| && ImagesTried(cfg, all, env, item, md, s, m).halted
    ensures ImagesTried(cfg, all, env, item, md, s, n) == ImagesTried(cfg, all, env, item, md, s, m)
  {
    if m < n {
      ImagesHaltedStay(cfg, all, env, item, md, s, m, n - 1);
    }
  }

  /** The image rows while some of the stored ones are still to be checked. */
  function Checked(cfg: Config, library: nat, images: map<Key, Image>, files: Files, left: set<Key>): map<Key, Image>
  {
    map key | key in images && (key in left || !Gone(cfg, library, images, files, key)) :: images[key]
  }

  /** Nothing is left to check, or nothing that could be cleared and something that cannot. */
  lemma CheckedEnds(cfg: Config, library: nat, env: Env, s: State, left: set<Key>)
    requires env.lists && left <= s.db.images.Keys && (forall key :: key in left ==> !env.clears(key))
    requires forall key :: key in s.db.images && key !in left && !env.clears(key) ==>
      !Gone(cfg, library, s.db.images, s.files, key)
    ensures s.(db := s.db.(images := Checked(cfg, library, s.db.images, s.files, left))) ==
      Cleared(cfg, library, env, s)
    ensures left == {} ==> !ReconcileFails(cfg, library, env, s)
    ensures forall key :: key in left && Gone(cfg, library, s.db.images, s.files, key) ==>
      ReconcileFails(cfg, library, env, s)
  {
    hide Gone;
    assert forall key :: key in left && Gone(cfg, library, s.db.images, s.files, key) ==>
      key in Uncleared(cfg, library, env, s);
    assert Checked(cfg, library, s.db.images, s.files, left) == Cleared(cfg, library, env, s).db.images;
  }

  lemma NothingChecked(cfg: Config, library: nat, images: map<Key, Image>, files: Files, left: set<Key>)
    requires forall key :: key in images && images[key].Held? && cfg.library(key.item) == library ==> key in left
    ensures Checked(cfg, library, images, files, left) == images
    ensures forall key :: key in images && key !in left ==> !Gone(cfg, library, images, files, key)
  {
  }

  lemma CheckedNext(cfg: Config, library: nat, images: map<Key, Image>, files: Files, left: set<Key>, key: Key)
    requires key in left && key in images && images[key].Held? && cfg.library(key.item) == library
    ensures Gone(cfg, library, images, files, key) <==> images[key].path !in files
    ensures var before, after :=
      Checked(cfg, library, images, files, left), Checked(cfg, library, images, files, left - {key});
      && key in before && before[key] == images[key]
      && after == (if images[key].path in files then before else before - {key})
      && |after| == |before| - (if images[key].path in files then 0 else 1)
  {
    var before, after := Checked(cfg, library, images, files, left), Checked(cfg, library, images, files, left - {key});
    if images[key].path !in files {
      assert after.Keys == before.Keys - {key};
    }
  }

  lemma SomeNext(env: Env, left: set<Key>)
    requires left != {}
    ensures exists key :: key in left && (env.clears(key) || forall other :: other in left ==> !env.clears(other))
  {
    if forall other :: other in left ==> !env.clears(other) {
      var key :| key in left;
    }
  }

  class RefreshService {
    const cfg: Config
    const repo: MetadataRepository
    const images: Store

    constructor (cfg: Config, repo: MetadataRepository, images: Store)
      ensures this.cfg == cfg && this.repo == repo && this.images == images
    {
      this.cfg, this.repo, this.images := cfg, repo, images;
    }

    /** The service's parts agree on how values are stored and bytes are hashed. */
    ghost predicate Wired()
    {
      && repo.columns == cfg.columns
      && images.letters == cfg.letters && images.hash == cfg.hash && images.max == cfg.max
    }

    ghost function Value(): State
      reads repo, images
    {
      State(repo.Value(), images.files)
    }

    /** Temporary names are new. */
    ghost predicate NewNames(env: Env)
      reads images
    {
      forall key: Key :: Temp(key.item, key.imageType, env.nonce(key)) !in images.files
    }

    /** The rows come in the order of the query: a delete that fails keeps its row and those behind it. */
    method Reconcile(library: nat, env: Env) returns (removed: nat, ok: bool)
      modifies repo
      ensures Value() == Cleared(cfg, library, env, old(Value()))
      ensures removed == |old(repo.images)| - |repo.images|
      ensures ok <==> !ReconcileFails(cfg, library, env, old(Value()))
    {
      hide Cleared, ReconcileFails, Gone, Checked;
      removed, ok := 0, false;
      if !env.lists {
        NotListed(cfg, library, env, Value());
        return;
      }
      ghost var start := Value();
      ghost var before := repo.images;
      var left := set key | key in repo.images && repo.images[key].Held? && cfg.library(key.item) == library;
      NothingChecked(cfg, library, before, images.files, left);
      while left != {}
        invariant left <= before.Keys
        invariant repo.Value() == old(repo.Value()).(images := Checked(cfg, library, before, images.files, left))
        invariant forall key :: key in left ==> before[key].Held? && cfg.library(key.item) == library
        invariant forall key :: key in before && key !in left && !env.clears(key) ==>
          !Gone(cfg, library, before, images.files, key)
        invariant removed == |before| - |repo.images|
        decreases |left|
      {
        SomeNext(env, left);
        var key :| key in left && (env.clears(key) || forall other :: other in left ==> !env.clears(other));
        CheckedNext(cfg, library, before, images.files, left, key);
        if images.Exists(repo.images[key].path) {
          left := left - {key};
          continue;
        }
        if !env.clears(key) {
          CheckedEnds(cfg, library, env, start, left);
          return;
        }
        repo.DeleteImage(key.item, key.imageType);
        removed := removed + 1;
        left := left - {key};
      }
      CheckedEnds(cfg, library, env, start, {});
      ok := true;
    }

    method Write(item: Item, field: string, value: Option<Value>, ghost p: Storing, skipped: nat) returns (more: nat,
                 failed: bool)
      requires Wired() && p == Storing(repo.Value(), skipped, false)
      modifies repo
      ensures Storing(repo.Value(), more, failed) == Put(cfg, p, item, field, value)
    {
      more, failed := skipped, false;
      if value.Some? {
        var r := repo.WriteField(item, field, cfg.source, value.value);
        failed := r.Failed?;
        if r.LockRefused? {
          more := skipped + 1;
        }
      }
    }

    method StoreFields(item: Item, md: Movie) returns (skipped: nat, failed: bool)
      requires Wired()
      modifies repo
      ensures Storing(repo.Value(), skipped, failed) == FieldsStored(cfg, old(repo.Value()), item, md)
    {
      hide Put, PutGenres, GenresWritten;
      ghost var p0 := Storing(repo.Value(), 0, false);
      skipped, failed := Write(item, "overview", WordsOf(md.overview), p0, 0);
      ghost var p1 := Storing(repo.Value(), skipped, failed);
      PutFailed(cfg, p1, item, md);
      if failed {
        return;
      }
      skipped, failed := Write(item, "community_rating", ScoreOf(md.communityRating), p1, skipped);
      ghost var p2 := Storing(repo.Value(), skipped, failed);
      PutFailed(cfg, p2, item, md);
      if failed {
        return;
      }
      skipped, failed := Write(item, "official_rating", WordsOf(md.officialRating), p2, skipped);
      ghost var p3 := Storing(repo.Value(), skipped, failed);
      PutFailed(cfg, p3, item, md);
      if failed {
        return;
      }
      skipped, failed := Write(item, "premiere_date", DayOf(md.releaseDate), p3, skipped);
      ghost var p4 := Storing(repo.Value(), skipped, failed);
      PutFailed(cfg, p4, item, md);
      if failed {
        return;
      }
      skipped, failed := WriteGenres(item, md.genres, p4, skipped);
    }

    method WriteGenres(item: Item, genres: seq<string>, ghost p: Storing, skipped: nat) returns (more: nat,
                       failed: bool)
      requires Wired() && p == Storing(repo.Value(), skipped, false)
      modifies repo
      ensures Storing(repo.Value(), more, failed) == PutGenres(cfg, p, item, genres)
    {
      more, failed := skipped, false;
      if |genres| > 0 {
        TriedWhole(repo.Value(), item, cfg.source, genres, Never);
        var r := repo.WriteGenres(item, cfg.source, genres, true, Never);
        failed := r.Failed?;
        if r.LockRefused? {
          more := skipped + 1;
        }
      }
    }

    method DownloadImage(env: Env, key: Key, c: Candidate) returns (r: Download)
      requires Wired() && NewNames(env)
      modifies images
      ensures r == Downloaded(cfg, env, old(images.files), key, c)
      ensures images.files == if r.Fetched? then r.files else old(images.files)
      ensures NewNames(env)
    {
      match env.image(key) {
        case ImageLimited => r := Limited;
        case ImageFailed => r := NotFetched;
        case Response(contentType, body) =>
          var saved := images.Save(key.item, key.imageType, contentType, body, env.fault(key), env.nonce(key));
          match saved {
            case Refused(_) => r := NotFetched;
            case Stored(v) =>
              r := Fetched(images.files, ItemImage(v.path, v.tag, v.contentType, c.width, c.height, c.url));
          }
      }
    }

    method WriteRow(env: Env, key: Key, img: ItemImage) returns (r: Outcome)
      modifies repo
      ensures Effect(repo.Value(), r) == RowWritten(cfg, env, old(repo.Value()), key, img)
    {
      if !env.writes(key) {
        return Failed;
      }
      r := repo.WriteImage(key.item, key.imageType, cfg.source, img);
    }

    method StoreImages(env: Env, item: Item, md: Movie, all: bool) returns (downloaded: nat, skipped: nat, halted: bool)
      requires Wired() && NewNames(env)
      modifies repo, images
      ensures Imaging(Value(), downloaded, skipped, halted) ==
        ImagesTried(cfg, all, env, item, md, old(Value()), |IMAGE_TYPES|)
      ensures NewNames(env)
    {
      hide Downloaded, RowWritten;
      downloaded, skipped, halted := 0, 0, false;
      if !env.readable(item) {
        halted := true;
        ImagesHaltedStay(cfg, all, env, item, md, old(Value()), 0, |IMAGE_TYPES|);
        return;
      }
      var have := repo.images;
      for i := 0 to |IMAGE_TYPES|
        invariant Imaging(Value(), downloaded, skipped, false) == ImagesTried(cfg, all, env, item, md, old(Value()), i)
        invariant NewNames(env)
      {
        var key := Key(item, IMAGE_TYPES[i]);
        if key in have && !all {
          continue;
        }
        if key.imageType !in md.images {
          var r := WriteRow(env, key, NoImage);
          skipped := skipped + (if r.LockRefused? then 1 else 0);
          if r.Failed? {
            halted := true;
            ImagesHaltedStay(cfg, all, env, item, md, old(Value()), i + 1, |IMAGE_TYPES|);
            return;
          }
          continue;
        }
        var d := DownloadImage(env, key, md.images[key.imageType]);
        match d {
          case Limited =>
            halted := true;
            ImagesHaltedStay(cfg, all, env, item, md, old(Value()), i + 1, |IMAGE_TYPES|);
            return;
          case NotFetched =>
          case Fetched(_, img) =>
            var r := WriteRow(env, key, img);
            if r.Failed? {
              halted := true;
              ImagesHaltedStay(cfg, all, env, item, md, old(Value()), i + 1, |IMAGE_TYPES|);
              return;
            }
            if r.LockRefused? {
              skipped := skipped + 1;
            } else {
              downloaded := downloaded + 1;
            }
        }
      }
    }

    method Refresh(library: nat, all: bool, env: Env) returns (fetched: nat, downloaded: nat, skipped: nat,
                   cleared: nat, ok: bool)
      requires Wired() && NewNames(env)
      modifies repo, images
      ensures Tally(Value(), fetched, downloaded, skipped, !ok) == Refreshed(cfg, library, all, env, old(Value()))
      ensures cleared == |old(repo.images)| - |Begun(cfg, library, env, old(Value())).db.images|
    {
      hide Reconciled, Cleared, ReconcileFails, Selected, Swept, ItemDone;
      fetched, downloaded, skipped, ok := 0, 0, 0, true;
      var _ := images.Sweep(env.stuck);
      assert NewNames(env) by {
        SweptSubset(old(images.files), env.stuck);
      }
      var whole;
      cleared, whole := Reconcile(library, env);
      if !whole || !env.selects {
        ok := false;
        return;
      }
      ghost var ready := Begun(cfg, library, env, old(Value()));
      assert Value() == ready;
      hide Begun;
      var batch := Selected(cfg, library, all, repo.Value());
      for i := 0 to |batch|
        invariant Tally(Value(), fetched, downloaded, skipped, false) == Passed(cfg, all, env, batch, ready, i)
        invariant NewNames(env)
      {
        var halted;
        fetched, downloaded, skipped, halted := RefreshItem(batch[i], all, env, fetched, downloaded, skipped);
        if halted {
          ok := false;
          HaltedStays(cfg, all, env, batch, ready, i + 1, |batch|);
          return;
        }
      }
    }

    /** The body of the pass's loop: one item, on top of what the pass has counted so far. */
    method RefreshItem(item: Item, all: bool, env: Env, fetched: nat, downloaded: nat, skipped: nat)
      returns (fetched': nat, downloaded': nat, skipped': nat, halted: bool)
      requires Wired() && NewNames(env)
      modifies repo, images
      ensures Tally(Value(), fetched', downloaded', skipped', halted) ==
        ItemDone(cfg, all, env, item, Tally(old(Value()), fetched, downloaded, skipped, false))
      ensures NewNames(env)
    {
      hide FieldsStored, ImagesTried;
      fetched', downloaded', skipped', halted := fetched, downloaded, skipped, false;
      if env.stops(item) {
        halted := true;
        return;
      }
      if cfg.providerId(item) == "" {
        return;
      }
      match env.fetch(item) {
        case FetchLimited => halted := true;
        case FetchFailed =>
        case Answer(md) =>
          var lockedFields, failed := StoreFields(item, md);
          if failed {
            halted := true;
            return;
          }
          fetched' := fetched + 1;
          skipped' := skipped + lockedFields;
          var more, lockedImages, stopped := StoreImages(env, item, md, all);
          if stopped {
            halted := true;
            return;
          }
          downloaded' := downloaded + more;
          skipped' := skipped' + lockedImages;
      }
    }
  }

  /** Nothing more is written after a failure. */
  lemma PutFailed(cfg: Config, p: Storing, item: Item, md: Movie)
    ensures p.failed ==>
      && (forall field, value :: Put(cfg, p, item, field, value) == p)
      && PutGenres(cfg, p, item, md.genres) == p
  {
  }
}
