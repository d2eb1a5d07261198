/**
 What a full refresh does to the tags of stored images (internal/service/artwork.go,
 internal/service/metadata.go). It saves the bytes before the row is written, so when a lock refuses the
 row or the database fails it the old tag can stay on the new bytes. What a crash does is in ArtworkTags.
 */
module FullRefresh {
  import opened Text
  import opened ArtworkStore
  import opened MetadataRows
  import opened Refresh
  import opened RefreshFixpoint
  import Lists

  ghost predicate TagRight(cfg: Config, s: State, key: Key)
  {
    key in s.db.images && s.db.images[key].Held? && s.db.images[key].path in s.files ==>
      s.db.images[key].tag == cfg.hash(s.files[s.db.images[key].path])
  }

  /**
   What the provider offers for a key is stored under the name its row has, with another digest, and the
   row stays: a lock refuses the new one, or the database fails it.
   */
  ghost predicate Replaces(cfg: Config, env: Env, md: Movie, s: State, key: Key)
  {
    && key in s.db.images && s.db.images[key].Held? && (Locked(s.db, CellOf(key)) || !env.writes(key))
    && key.imageType in md.images && Arrives(cfg, env, key)
    && var saved := Attempt(cfg.letters, cfg.hash, cfg.max, key.item, key.imageType,
                            env.image(key).contentType, env.image(key).body, env.fault(key)).saved;
       saved.path == s.db.images[key].path && saved.tag != s.db.images[key].tag
  }

  /** The row and the file of a key, and its lock, are the same in both states. */
  ghost predicate SameImage(s: State, t: State, key: Key)
  {
    && (key in t.db.images <==> key in s.db.images)
    && (Locked(t.db, CellOf(key)) <==> Locked(s.db, CellOf(key)))
    && (key in s.db.images ==>
          && t.db.images[key] == s.db.images[key]
          && (s.db.images[key].Held? ==>
                var p := s.db.images[key].path;
                (p in t.files <==> p in s.files) && (p in s.files ==> t.files[p] == s.files[p])))
  }

  lemma SameImageTransitive(a: State, b: State, c: State, key: Key)
    requires SameImage(a, b, key) && SameImage(b, c, key)
    ensures SameImage(a, c, key)
  {
    hide Locked, CellOf;
  }

  lemma SameImageTag(cfg: Config, s: State, t: State, key: Key)
    requires SameImage(s, t, key)
    ensures TagRight(cfg, s, key) <==> TagRight(cfg, t, key)
  {
    hide Locked, CellOf;
  }

  lemma SameImageSameTag(cfg: Config, env: Env, md: Movie, s: State, t: State, key: Key)
    requires SameImage(s, t, key)
    ensures TagRight(cfg, s, key) <==> TagRight(cfg, t, key)
    ensures Replaces(cfg, env, md, s, key) <==> Replaces(cfg, env, md, t, key)
  {
    hide Locked, CellOf, Attempt, Arrives;
  }

  /** The key's row, if it has bytes, names a file of its own that is there. */
  ghost predicate Own(s: State, key: Key)
  {
    key in s.db.images && s.db.images[key].Held? ==>
      var p := s.db.images[key].path;
      p.Final? && p.item == key.item && p.imageType == key.imageType
  }

  ghost predicate Present(s: State, key: Key)
  {
    key in s.db.images && s.db.images[key].Held? ==> s.db.images[key].path in s.files
  }

  // ---- one image ----

  /** Writing an image row touches no other key, and no lock. */
  lemma WrittenElsewhere(db: Db, other: Key, source: string, img: ItemImage, key: Key)
    requires key != other
    ensures var w := ImageWritten(db, other, source, img).db;
      && (key in w.images <==> key in db.images) && (key in db.images ==> w.images[key] == db.images[key])
      && (forall cell :: Locked(w, cell) <==> Locked(db, cell))
  {
    hide ImageField, RowOf;
  }

  /** Trying one image leaves every other key alone: names are separate. */
  lemma OtherImageUntouched(cfg: Config, all: bool, env: Env, md: Movie, had: bool, other: Key, p: Imaging, key: Key)
    requires key != other && Own(p.s, key)
    ensures SameImage(p.s, ImageTried(cfg, all, env, md, had, other, p).s, key)
  {
    hide ImageWritten, Locked, Attempt;
    if other.imageType in md.images {
      var d := Downloaded(cfg, env, p.s.files, other, md.images[other.imageType]);
      DownloadedOwn(cfg, env, p.s, other, md.images[other.imageType]);
      if d.Fetched? {
        WrittenElsewhere(p.s.db, other, cfg.source, d.img, key);
      }
    } else {
      WrittenElsewhere(p.s.db, other, cfg.source, NoImage, key);
    }
  }

  ghost predicate Writable(cfg: Config, s: State, key: Key)
  {
    cfg.source != "" && key.item in s.db.items && key.imageType in IMAGE_TYPES
  }

  lemma WrittenHere(cfg: Config, db: Db, key: Key, img: ItemImage)
    requires cfg.source != "" && key.item in db.items && key.imageType in IMAGE_TYPES
    ensures ImageWritten(db, key, cfg.source, img).db.images ==
      if Locked(db, CellOf(key)) then db.images else db.images[key := RowOf(img)]
  {
    assert ImageField(key.imageType).Some?;
    hide ImageField, RowOf;
  }

  /** The tag is right after the key's own turn unless the image was replaced and its row kept. */
  lemma OwnTurn(cfg: Config, env: Env, md: Movie, had: bool, key: Key, p: Imaging)
    requires Writable(cfg, p.s, key) && Own(p.s, key) && Present(p.s, key) && TagRight(cfg, p.s, key) && !p.halted
    ensures TagRight(cfg, ImageTried(cfg, true, env, md, had, key, p).s, key) <==> !Replaces(cfg, env, md, p.s, key)
  {
    hide ImageWritten, Locked, Attempt, Writable;
    WritableParts(cfg, p.s, key);
    if key.imageType in md.images {
      var d := Downloaded(cfg, env, p.s.files, key, md.images[key.imageType]);
      DownloadedOwn(cfg, env, p.s, key, md.images[key.imageType]);
      if d.Fetched? {
        WrittenHere(cfg, p.s.db, key, d.img);
        DownloadedTag(cfg, env, p.s, key, md.images[key.imageType]);
      }
    } else {
      WrittenHere(cfg, p.s.db, key, NoImage);
    }
  }

  lemma WritableParts(cfg: Config, s: State, key: Key)
    requires Writable(cfg, s, key)
    ensures cfg.source != "" && key.item in s.db.items && key.imageType in IMAGE_TYPES
  {
  }

  lemma DownloadedTag(cfg: Config, env: Env, s: State, key: Key, c: Candidate)
    requires Downloaded(cfg, env, s.files, key, c).Fetched?
    ensures var d := Downloaded(cfg, env, s.files, key, c);
      var saved := Attempt(cfg.letters, cfg.hash, cfg.max, key.item, key.imageType,
                           env.image(key).contentType, env.image(key).body, env.fault(key)).saved;
      d.img.path == saved.path && d.img.tag == saved.tag
  {
  }

  // ---- one item ----

  lemma {:induction false} OtherItemUntouched(cfg: Config, all: bool, env: Env, item: Item, md: Movie, s: State,
                                              n: nat, key: Key)
    requires n <= |IMAGE_TYPES| && Own(s, key)
    requires key.item != item || forall i :: 0 <= i < n ==> IMAGE_TYPES[i] != key.imageType
    ensures SameImage(s, ImagesTried(cfg, all, env, item, md, s, n).s, key)
  {
    hide ImageTried, Locked, CellOf;
    if n > 0 {
      OtherItemUntouched(cfg, all, env, item, md, s, n - 1, key);
      var p := ImagesTried(cfg, all, env, item, md, s, n - 1);
      var other := Key(item, IMAGE_TYPES[n - 1]);
      OtherImageUntouched(cfg, all, env, md, other in s.db.images, other, p, key);
      SameImageTransitive(s, p.s, ImagesTried(cfg, all, env, item, md, s, n).s, key);
    }
  }

  lemma TypesDistinct(i: nat, j: nat)
    requires i < |IMAGE_TYPES| && j < |IMAGE_TYPES| && i != j
    ensures IMAGE_TYPES[i] != IMAGE_TYPES[j]
  {
  }

  lemma {:induction false} ImagesItems(cfg: Config, all: bool, env: Env, item: Item, md: Movie, s: State, n: nat)
    requires n <= |IMAGE_TYPES|
    ensures ImagesTried(cfg, all, env, item, md, s, n).s.db.items == s.db.items
  {
    hide ImageTried;
    if n > 0 {
      ImagesItems(cfg, all, env, item, md, s, n - 1);
      var key := Key(item, IMAGE_TYPES[n - 1]);
      TriedItems(cfg, all, env, md, key in s.db.images, key, ImagesTried(cfg, all, env, item, md, s, n - 1));
    }
  }

  lemma TriedItems(cfg: Config, all: bool, env: Env, md: Movie, had: bool, key: Key, p: Imaging)
    ensures ImageTried(cfg, all, env, md, had, key, p).s.db.items == p.s.db.items
  {
    hide ImageField, Locked, Attempt, RowOf;
  }

  /** Every image of an item, after n types were tried: wrong exactly when its turn replaced it and kept its row. */
  lemma {:induction false} ItemTags(cfg: Config, env: Env, item: Item, md: Movie, s: State, n: nat, j: nat)
    requires j < n <= |IMAGE_TYPES| && cfg.source != "" && item in s.db.items
    requires var key := Key(item, IMAGE_TYPES[j]); Own(s, key) && Present(s, key) && TagRight(cfg, s, key)
    ensures var key := Key(item, IMAGE_TYPES[j]);
      TagRight(cfg, ImagesTried(cfg, true, env, item, md, s, n).s, key) <==>
        !(!ImagesTried(cfg, true, env, item, md, s, j).halted && Replaces(cfg, env, md, s, key))
    decreases n
  {
    hide ImageTried, Locked, CellOf, Own, Present, TagRight, Replaces;
    var key := Key(item, IMAGE_TYPES[j]);
    if n == j + 1 {
      forall i | 0 <= i < j
        ensures IMAGE_TYPES[i] != IMAGE_TYPES[j]
      {
        TypesDistinct(i, j);
      }
      OtherItemUntouched(cfg, true, env, item, md, s, j, key);
      var p := ImagesTried(cfg, true, env, item, md, s, j);
      SameImageSameTag(cfg, env, md, s, p.s, key);
      if p.halted {
        ImagesHaltedStay(cfg, true, env, item, md, s, j, n);
      } else {
        SameImageOwn(s, p.s, key);
        ImagesItems(cfg, true, env, item, md, s, j);
        OwnTurn(cfg, env, md, key in s.db.images, key, p);
      }
    } else {
      ItemTags(cfg, env, item, md, s, n - 1, j);
      LaterTypeUntouched(cfg, env, item, md, s, n, j);
    }
  }

  lemma SameImageOwn(s: State, t: State, key: Key)
    requires SameImage(s, t, key) && Own(s, key) && Present(s, key)
    ensures Own(t, key) && Present(t, key)
  {
    hide Locked, CellOf;
  }

  lemma LaterTypeUntouched(cfg: Config, env: Env, item: Item, md: Movie, s: State, n: nat, j: nat)
    requires j + 1 < n <= |IMAGE_TYPES| && Own(s, Key(item, IMAGE_TYPES[j]))
    ensures var key := Key(item, IMAGE_TYPES[j]);
      TagRight(cfg, ImagesTried(cfg, true, env, item, md, s, n).s, key) <==>
        TagRight(cfg, ImagesTried(cfg, true, env, item, md, s, n - 1).s, key)
  {
    hide ImageTried, Locked, CellOf, TagRight;
    var key, other := Key(item, IMAGE_TYPES[j]), Key(item, IMAGE_TYPES[n - 1]);
    var p := ImagesTried(cfg, true, env, item, md, s, n - 1);
    TypesDistinct(j, n - 1);
    ImagesOwnKey(cfg, env, item, md, s, n - 1, key);
    OtherImageUntouched(cfg, true, env, md, other in s.db.images, other, p, key);
    SameImageSameTag(cfg, env, md, p.s, ImagesTried(cfg, true, env, item, md, s, n).s, key);
  }

  lemma {:induction false} ImagesOwnKey(cfg: Config, env: Env, item: Item, md: Movie, s: State, n: nat, key: Key)
    requires n <= |IMAGE_TYPES| && Own(s, key)
    ensures Own(ImagesTried(cfg, true, env, item, md, s, n).s, key)
  {
    hide ImageTried;
    if n > 0 {
      var p := ImagesTried(cfg, true, env, item, md, s, n - 1);
      var other := Key(item, IMAGE_TYPES[n - 1]);
      ImagesOwnKey(cfg, env, item, md, s, n - 1, key);
      if other == key {
        TurnOwn(cfg, env, md, other in s.db.images, key, p);
      } else {
        OtherImageUntouched(cfg, true, env, md, other in s.db.images, other, p, key);
      }
    }
  }

  lemma TurnOwn(cfg: Config, env: Env, md: Movie, had: bool, key: Key, p: Imaging)
    requires Own(p.s, key)
    ensures Own(ImageTried(cfg, true, env, md, had, key, p).s, key)
  {
    hide ImageField, Locked;
    if key.imageType in md.images {
      DownloadedOwn(cfg, env, p.s, key, md.images[key.imageType]);
    }
    hide Attempt;
  }

  /** The item's turn gets as far as its j-th image type. */
  ghost predicate Reaches(cfg: Config, env: Env, item: Item, t: Tally, j: nat)
    requires j <= |IMAGE_TYPES|
  {
    && !t.halted && !env.stops(item) && cfg.providerId(item) != "" && env.fetch(item).Answer?
    && var stored := FieldsStored(cfg, t.s.db, item, env.fetch(item).md);
       !stored.failed
       && !ImagesTried(cfg, true, env, item, env.fetch(item).md, t.s.(db := stored.db), j).halted
  }

  lemma FieldsUntouched(s: State, db: Db, item: Item, creates: bool, key: Key)
    requires FieldsOnly(s.db, db, item, creates)
    ensures SameImage(s, s.(db := db), key)
  {
    hide Locked, CellOf;
  }

  lemma ItemTurn(cfg: Config, env: Env, item: Item, t: Tally, j: nat)
    requires j < |IMAGE_TYPES| && cfg.source != "" && item in t.s.db.items
    requires var key := Key(item, IMAGE_TYPES[j]); Own(t.s, key) && Present(t.s, key) && TagRight(cfg, t.s, key)
    ensures var key := Key(item, IMAGE_TYPES[j]);
      TagRight(cfg, ItemDone(cfg, true, env, item, t).s, key) <==>
        !(Reaches(cfg, env, item, t, j) && Replaces(cfg, env, env.fetch(item).md, t.s, key))
  {
    hide FieldsStored, ImagesTried, Own, Present, TagRight, Replaces, SameImage, HasScalar, FieldsTaken;
    var key := Key(item, IMAGE_TYPES[j]);
    if !t.halted && !env.stops(item) && cfg.providerId(item) != "" && env.fetch(item).Answer? {
      var md := env.fetch(item).md;
      var stored := FieldsStored(cfg, t.s.db, item, md);
      var s1 := t.s.(db := stored.db);
      FieldsStep(cfg, t.s.db, item, md);
      FieldsUntouched(t.s, stored.db, item, HasScalar(md), key);
      SameImageSameTag(cfg, env, md, t.s, s1, key);
      SameImageOwn(t.s, s1, key);
      if !stored.failed {
        ItemTags(cfg, env, item, md, s1, |IMAGE_TYPES|, j);
      }
    }
  }

  lemma OtherTurn(cfg: Config, env: Env, item: Item, t: Tally, key: Key)
    requires cfg.source != "" && item in t.s.db.items && key.item != item && Own(t.s, key)
    ensures SameImage(t.s, ItemDone(cfg, true, env, item, t).s, key)
  {
    hide FieldsStored, ImagesTried, Own, SameImage, HasScalar, FieldsTaken;
    SameImageReflexive(t.s, key);
    if !t.halted && cfg.providerId(item) != "" && env.fetch(item).Answer? {
      var md := env.fetch(item).md;
      var stored := FieldsStored(cfg, t.s.db, item, md);
      var s1 := t.s.(db := stored.db);
      FieldsStep(cfg, t.s.db, item, md);
      FieldsUntouched(t.s, stored.db, item, HasScalar(md), key);
      SameImageStillOwn(t.s, s1, key);
      OtherItemUntouched(cfg, true, env, item, md, s1, |IMAGE_TYPES|, key);
      SameImageTransitive(t.s, s1, ImagesTried(cfg, true, env, item, md, s1, |IMAGE_TYPES|).s, key);
    }
  }

  lemma SameImageReflexive(s: State, key: Key)
    ensures SameImage(s, s, key)
  {
  }

  lemma SameImageStillOwn(s: State, t: State, key: Key)
    requires SameImage(s, t, key) && Own(s, key)
    ensures Own(t, key)
  {
    hide Locked, CellOf;
  }

  lemma ItemKeepsItems(cfg: Config, env: Env, item: Item, t: Tally)
    requires cfg.source != "" && item in t.s.db.items
    ensures ItemDone(cfg, true, env, item, t).s.db.items == t.s.db.items
  {
    hide FieldsStored, ImagesTried, HasScalar, FieldsTaken;
    if env.fetch(item).Answer? {
      var md := env.fetch(item).md;
      var stored := FieldsStored(cfg, t.s.db, item, md);
      FieldsStep(cfg, t.s.db, item, md);
      ItemsKept(t.s.db, stored.db, item, HasScalar(md));
      ImagesItems(cfg, true, env, item, md, t.s.(db := stored.db), |IMAGE_TYPES|);
    }
  }

  // ---- the pass ----

  /** Items that are not the key's leave it alone. */
  lemma {:induction false} OtherTurns(cfg: Config, env: Env, batch: seq<Item>, s: State, n: nat, key: Key)
    requires n <= |batch| && cfg.source != "" && Own(s, key) && forall item :: item in batch ==> item in s.db.items
    ensures Passed(cfg, true, env, batch, s, n).s.db.items == s.db.items
    ensures (forall i :: 0 <= i < n ==> batch[i] != key.item) ==>
      SameImage(s, Passed(cfg, true, env, batch, s, n).s, key)
  {
    hide ItemDone, Own, SameImage;
    if n == 0 {
      SameImageReflexive(s, key);
    } else {
      OtherTurns(cfg, env, batch, s, n - 1, key);
      var t := Passed(cfg, true, env, batch, s, n - 1);
      ItemKeepsItems(cfg, env, batch[n - 1], t);
      if forall i :: 0 <= i < n ==> batch[i] != key.item {
        SameImageStillOwn(s, t.s, key);
        OtherTurn(cfg, env, batch[n - 1], t, key);
        SameImageTransitive(s, t.s, Passed(cfg, true, env, batch, s, n).s, key);
      }
    }
  }

  lemma {:induction false} PassTags(cfg: Config, env: Env, batch: seq<Item>, s: State, n: nat, i: nat, j: nat)
    requires i < n <= |batch| && j < |IMAGE_TYPES| && cfg.source != "" && Lists.Distinct(batch)
    requires OwnFiles(s) && forall item :: item in batch ==> item in s.db.items
    requires var key := Key(batch[i], IMAGE_TYPES[j]); Present(s, key) && TagRight(cfg, s, key)
    ensures var key := Key(batch[i], IMAGE_TYPES[j]);
      TagRight(cfg, Passed(cfg, true, env, batch, s, n).s, key) <==>
        !(Reaches(cfg, env, batch[i], Passed(cfg, true, env, batch, s, i), j)
          && Replaces(cfg, env, env.fetch(batch[i]).md, s, key))
    decreases n
  {
    hide ItemDone, Own, SameImage, Present, TagRight, Replaces, OwnFiles, FieldsStored, ImagesTried;
    var key := Key(batch[i], IMAGE_TYPES[j]);
    OwnFilesOwn(s, key);
    if n == i + 1 {
      var t := Passed(cfg, true, env, batch, s, i);
      OtherTurns(cfg, env, batch, s, i, key);
      SameImageOwn(s, t.s, key);
      SameImageTag(cfg, s, t.s, key);
      if env.fetch(batch[i]).Answer? {
        SameImageSameTag(cfg, env, env.fetch(batch[i]).md, s, t.s, key);
      }
      ItemTurn(cfg, env, batch[i], t, j);
    } else {
      PassTags(cfg, env, batch, s, n - 1, i, j);
      var t := Passed(cfg, true, env, batch, s, n - 1);
      OtherTurns(cfg, env, batch, s, n - 1, key);
      PassOwn(cfg, true, env, batch, s, n - 1);
      OwnFilesOwn(t.s, key);
      OtherTurn(cfg, env, batch[n - 1], t, key);
      SameImageTag(cfg, t.s, Passed(cfg, true, env, batch, s, n).s, key);
    }
  }

  lemma OwnFilesOwn(s: State, key: Key)
    requires OwnFiles(s)
    ensures Own(s, key)
  {
  }

  /**
   The key's turn comes in a full refresh of its library that selects its items, another digest arrives
   under the name its row has, and the row stays.
   */
  ghost predicate GoesStale(cfg: Config, library: nat, env: Env, s: State, key: Key)
  {
    var ready := Begun(cfg, library, env, s);
    var batch := Selected(cfg, library, true, ready.db);
    !EndsEarly(cfg, library, env, s) &&
    exists i, j :: 0 <= i < |batch| && 0 <= j < |IMAGE_TYPES| && key == Key(batch[i], IMAGE_TYPES[j])
      && Reaches(cfg, env, batch[i], Passed(cfg, true, env, batch, ready, i), j)
      && Replaces(cfg, env, env.fetch(batch[i]).md, ready, key)
  }

  lemma SelectedDistinct(cfg: Config, library: nat, all: bool, db: Db)
    requires Lists.Distinct(cfg.order)
    ensures Lists.Distinct(Selected(cfg, library, all, db))
  {
    hide Lists.Filter;
    Lists.FilterDistinct(Wanted(cfg, library, all, db), cfg.order);
  }

  lemma ReadyTag(cfg: Config, library: nat, s: State, key: Key)
    requires TagsRight(cfg, s) && (cfg.library(key.item) == library ==> OnDisk(cfg, library, s))
    ensures TagRight(cfg, s, key) && (cfg.library(key.item) == library ==> Present(s, key))
  {
    if OnDisk(cfg, library, s) {
      assert !Gone(cfg, library, s.db.images, s.files, key);
    }
  }

  /**
   A full refresh of a library, from any state whose tags were right: afterwards the tag of every image
   is that of its file, exactly but for those whose file the refresh replaced while a lock or a failing
   write kept the row.
   */
  lemma FullRefreshTags(cfg: Config, library: nat, env: Env, s: State, key: Key)
    requires Catalogued(cfg, s) && OwnFiles(s) && TagsRight(cfg, s) && Lists.Distinct(cfg.order)
    ensures TagRight(cfg, Refreshed(cfg, library, true, env, s).s, key) <==> !GoesStale(cfg, library, env, s, key)
  {
    hide Selected, Prepared, TagsRight, OwnFiles, Passed, Reaches, Replaces, TagRight, Present, OnDisk, Eligible,
      EndsEarly, Begun;
    BegunOwn(cfg, library, env, s);
    if EndsEarly(cfg, library, env, s) {
      RightTag(cfg, Begun(cfg, library, env, s), key);
      return;
    }
    var ready := Begun(cfg, library, env, s);
    var batch := Selected(cfg, library, true, ready.db);
    SelectedOurs(cfg, library, true, ready.db);
    SelectedDistinct(cfg, library, true, ready.db);
    ReadyTag(cfg, library, ready, key);
    if key.item in batch && key.imageType in IMAGE_TYPES {
      var i :| 0 <= i < |batch| && batch[i] == key.item;
      var j :| 0 <= j < |IMAGE_TYPES| && IMAGE_TYPES[j] == key.imageType;
      OursIn(cfg, library, key.item);
      PassTags(cfg, env, batch, ready, |batch|, i, j);
      OnePlace(batch, key, i, j);
    } else {
      ElsewhereUntouched(cfg, env, batch, ready, key);
    }
  }

  lemma RightTag(cfg: Config, s: State, key: Key)
    requires TagsRight(cfg, s)
    ensures TagRight(cfg, s, key)
  {
  }

  lemma OursIn(cfg: Config, library: nat, item: Item)
    requires Ours(cfg, library, item)
    ensures cfg.library(item) == library
  {
  }

  lemma OnePlace(batch: seq<Item>, key: Key, i: nat, j: nat)
    requires Lists.Distinct(batch) && i < |batch| && j < |IMAGE_TYPES| && key == Key(batch[i], IMAGE_TYPES[j])
    ensures forall k, l :: 0 <= k < |batch| && 0 <= l < |IMAGE_TYPES| && key == Key(batch[k], IMAGE_TYPES[l]) ==>
      k == i && l == j
  {
    forall l | 0 <= l < |IMAGE_TYPES| && IMAGE_TYPES[l] == IMAGE_TYPES[j]
      ensures l == j
    {
      if l != j {
        TypesDistinct(l, j);
      }
    }
  }

  lemma ElsewhereUntouched(cfg: Config, env: Env, batch: seq<Item>, s: State, key: Key)
    requires cfg.source != "" && OwnFiles(s) && forall item :: item in batch ==> item in s.db.items
    requires TagRight(cfg, s, key) && !(key.item in batch && key.imageType in IMAGE_TYPES)
    ensures TagRight(cfg, Passed(cfg, true, env, batch, s, |batch|).s, key)
  {
    hide Passed, TagRight, OwnFiles;
    OwnFilesOwn(s, key);
    if key.item !in batch {
      OtherTurns(cfg, env, batch, s, |batch|, key);
      SameImageTag(cfg, s, Passed(cfg, true, env, batch, s, |batch|).s, key);
    } else {
      PassOwn(cfg, true, env, batch, s, |batch|);
      UnmanagedTag(cfg, Passed(cfg, true, env, batch, s, |batch|).s, key);
    }
  }

  lemma UnmanagedTag(cfg: Config, s: State, key: Key)
    requires OwnFiles(s) && key.imageType !in IMAGE_TYPES
    ensures TagRight(cfg, s, key)
  {
  }

  // ---- an input at which it goes stale ----

  const PLAIN := Letters(c => c, c => false)

  lemma PlainType()
    ensures ExtensionFor(PLAIN, "image/jpeg") == Some(".jpg")
  {
    var t := "image/jpeg";
    assert ';' !in t;
    TrimmedStays(PLAIN.space, t);
    assert Lower(PLAIN.lower, t) == t;
  }

  const FIRST: Key := Key(0, "primary")

  const FIRST_PATH := Final(0, "primary", ".jpg")

  function LengthDigest(bytes: Bytes): string
  {
    if |bytes| == 1 then "one" else "other"
  }

  /** One matched film, its poster stored and pinned; the provider has since changed the poster. */
  function StaleConfig(): Config
  {
    Config((field, value) => Some(value), "tmdb", PLAIN, LengthDigest, DEFAULT_MAX_BYTES, [0],
           (item: Item) => 0, (item: Item) => true, (item: Item) => "550")
  }

  function StaleEnv(): Env
  {
    Env((item: Item) => Answer(Movie("", None, "", None, [], map["primary" := Candidate("poster", 2, 3)])),
        (key: Key) => Response("image/jpeg", Body([1, 2], false)), (key: Key) => NoFault, (key: Key) => 0,
        {}, true, (key: Key) => true, true, (item: Item) => false, (item: Item) => true, (key: Key) => true)
  }

  function StaleState(): State
  {
    State(Db({0}, {0}, map[], map[], map[Cell(0, "image_primary") := Provenance("tmdb", true)],
             map[FIRST := Held(FIRST_PATH, "one", "image/jpeg", None, None, None)]),
          map[FIRST_PATH := [1]])
  }

  lemma StaleReady()
    ensures Prepared(StaleConfig(), 0, StaleState()) == StaleState()
    ensures Selected(StaleConfig(), 0, true, StaleState().db) == [0]
  {
    var s := StaleState();
    assert Swept(s.files, {}) == s.files;
    assert Reconciled(StaleConfig(), 0, s).db.images == s.db.images;
    var wanted := Wanted(StaleConfig(), 0, true, s.db);
    assert [0 as Item][..0] == [];
    assert Lists.Filter(wanted, [0]) == [0];
  }

  lemma StaleArrives()
    ensures var cfg, env := StaleConfig(), StaleEnv();
      var r := Attempt(cfg.letters, cfg.hash, cfg.max, FIRST.item, FIRST.imageType,
                       env.image(FIRST).contentType, env.image(FIRST).body, env.fault(FIRST));
      r.Stored? && r.saved.path == FIRST_PATH && r.saved.tag == "other"
  {
    PlainType();
    hide ExtensionFor, NormalizeContentType, Attempt;
    StoredExactly(PLAIN, LengthDigest, DEFAULT_MAX_BYTES, 0, "primary", "image/jpeg", Body([1, 2], false), NoFault);
  }

  lemma StaleReplaces()
    ensures Replaces(StaleConfig(), StaleEnv(), StaleEnv().fetch(0).md, StaleState(), FIRST)
  {
    StaleArrives();
    hide Attempt;
    assert CellOf(FIRST) == Cell(0, "image_primary");
  }

  lemma StaleBefore()
    ensures Catalogued(StaleConfig(), StaleState()) && OwnFiles(StaleState()) && TagsRight(StaleConfig(), StaleState())
  {
    assert "primary" == IMAGE_TYPES[0];
  }

  lemma StaleTurn()
    ensures var batch: seq<Item> := [0];
      Reaches(StaleConfig(), StaleEnv(), 0, Passed(StaleConfig(), true, StaleEnv(), batch, StaleState(), 0), 0)
  {
  }

  /** The tags are right before this full refresh, and the poster's is wrong after it. */
  lemma TagGoesStale()
    ensures Catalogued(StaleConfig(), StaleState()) && OwnFiles(StaleState()) && TagsRight(StaleConfig(), StaleState())
    ensures !TagRight(StaleConfig(), Refreshed(StaleConfig(), 0, true, StaleEnv(), StaleState()).s, FIRST)
  {
    hide Replaces, Reaches, Refreshed, TagRight, Passed, Selected, Prepared, TagsRight, OwnFiles, Catalogued,
      StaleState, StaleEnv, StaleConfig, EndsEarly;
    StaleBefore();
    StaleStarts();
    StartsWalk(StaleConfig(), 0, true, StaleEnv(), StaleState());
    StaleReady();
    StaleReplaces();
    StaleTurn();
    StaleOrder();
    var batch: seq<Item> := [0];
    assert FIRST == Key(batch[0], IMAGE_TYPES[0]);
    FullRefreshTags(StaleConfig(), 0, StaleEnv(), StaleState(), FIRST);
  }

  lemma StaleStarts()
    ensures Starts(StaleEnv())
  {
  }

  lemma StaleOrder()
    ensures Lists.Distinct(StaleConfig().order)
  {
  }
}
