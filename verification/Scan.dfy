/**
 Indexing a library (internal/service/scan.go, internal/repository/media.go): probe or keep, then
 one transaction per file that upserts the item, the file and its streams by their natural keys.
 Ids and the clock come from the environment; the update timestamps are left out.
 */
module Scan {
  import opened Text

  type Id = nat

  /** An item's place on disk within its library. */
  datatype ItemKey = ItemKey(library: nat, sourcePath: string)

  datatype ItemRow = ItemRow(id: Id, title: string, year: Option<int>, createdAt: int)

  datatype FileRow = FileRow(id: Id, itemId: Id, filename: string, size: nat, container: Option<string>,
                             duration: Option<real>, probedAt: Option<int>, createdAt: int)

  datatype Stream = Stream(index: nat, kind: string, details: string)

  datatype Db = Db(
    items: map<ItemKey, ItemRow>, files: map<string, FileRow>, streams: map<Id, seq<Stream>>, identity: map<Id, string>)

  datatype Found = Found(
    path: string, filename: string, sourcePath: string, size: nat, title: string, year: Option<int>)

  datatype Probe = Probe(container: string, duration: Option<real>, streams: seq<Stream>)

  /** What the outside world does at the k-th file of one scan. */
  datatype Env = Env(
    probe: nat -> Option<Probe>, commits: nat -> bool, itemId: nat -> Id, fileId: nat -> Id, clock: nat -> int)

  const PENDING := "pending"

  function KeyOf(library: nat, f: Found): ItemKey
  {
    ItemKey(library, f.sourcePath)
  }

  /** Never probed, or of another size than when it was. */
  predicate NeedsProbe(db: Db, f: Found)
  {
    f.path !in db.files || db.files[f.path].probedAt.None? || db.files[f.path].size != f.size
  }

  // ---- the upserts, by natural key ----

  /** Only the title and the year of an item already there change. */
  function ItemRowFor(items: map<ItemKey, ItemRow>, key: ItemKey, f: Found, newId: Id, ts: int): ItemRow
  {
    if key in items then items[key].(title := f.title, year := f.year) else ItemRow(newId, f.title, f.year, ts)
  }

  function UpsertedItem(db: Db, key: ItemKey, f: Found, newId: Id, ts: int): Db
  {
    db.(items := db.items[key := ItemRowFor(db.items, key, f, newId, ts)])
  }

  function EnsuredIdentity(db: Db, item: Id): Db
  {
    if item in db.identity then db else db.(identity := db.identity[item := PENDING])
  }

  function UpsertedFile(db: Db, path: string, row: FileRow): Db
  {
    var kept := if path in db.files then row.(id := db.files[path].id, createdAt := db.files[path].createdAt) else row;
    db.(files := db.files[path := kept])
  }

  /** The file row a scan asks for: the probe's findings, or what was stored. */
  function FileRowFor(db: Db, f: Found, itemId: Id, probe: Option<Probe>, newId: Id, ts: int): FileRow
    requires probe.None? ==> f.path in db.files
  {
    match probe
    case Some(p) => FileRow(newId, itemId, f.filename, f.size, NonEmptyString(p.container), p.duration, Some(ts), ts)
    case None =>
      var existing := db.files[f.path];
      FileRow(newId, itemId, f.filename, f.size, existing.container, existing.duration, existing.probedAt, ts)
  }

  /** The transaction for one file. */
  function Committed(db: Db, library: nat, f: Found, probe: Option<Probe>, env: Env, k: nat): Db
    requires probe.None? ==> f.path in db.files
  {
    var key := KeyOf(library, f);
    var db1 := UpsertedItem(db, key, f, env.itemId(k), env.clock(k));
    var itemId := db1.items[key].id;
    var db2 := EnsuredIdentity(db1, itemId);
    var db3 := UpsertedFile(db2, f.path, FileRowFor(db, f, itemId, probe, env.fileId(k), env.clock(k)));
    if probe.None? then db3 else db3.(streams := db3.streams[db3.files[f.path].id := probe.value.streams])
  }

  datatype Outcome = Probed | Skipped | Failed

  function OutcomeOf(db: Db, f: Found, env: Env, k: nat): Outcome
  {
    if NeedsProbe(db, f) && env.probe(k).None? then Failed
    else if !env.commits(k) then Failed
    else if NeedsProbe(db, f) then Probed
    else Skipped
  }

  function Persisted(db: Db, library: nat, f: Found, env: Env, k: nat): Db
  {
    if OutcomeOf(db, f, env, k).Failed? then db
    else Committed(db, library, f, if NeedsProbe(db, f) then env.probe(k) else None, env, k)
  }

  /** How many of n files a scan gets to before it is stopped. */
  function Reached(stops: nat -> bool, n: nat): (r: nat)
    ensures r <= n && (forall i :: 0 <= i < r ==> !stops(i)) && (r < n ==> stops(r))
  {
    if n == 0 then 0
    else
      var r := Reached(stops, n - 1);
      if r < n - 1 || stops(n - 1) then r else n
  }

  function Scanned(db: Db, library: nat, found: seq<Found>, env: Env, n: nat): Db
    requires n <= |found|
  {
    if n == 0 then db else Persisted(Scanned(db, library, found, env, n - 1), library, found[n - 1], env, n - 1)
  }

  function Tally(db: Db, library: nat, found: seq<Found>, env: Env, n: nat, outcome: Outcome): nat
    requires n <= |found|
  {
    if n == 0 then 0
    else Tally(db, library, found, env, n - 1, outcome)
         + (if OutcomeOf(Scanned(db, library, found, env, n - 1), found[n - 1], env, n - 1) == outcome then 1 else 0)
  }

  // ---- the service ----

  class MediaStore {
    var items: map<ItemKey, ItemRow>
    var files: map<string, FileRow>
    var streams: map<Id, seq<Stream>>
    var identity: map<Id, string>

    ghost function Value(): Db
      reads this
    {
      Db(items, files, streams, identity)
    }

    constructor ()
      ensures Value() == Db(map[], map[], map[], map[])
    {
      items, files, streams, identity := map[], map[], map[], map[];
    }

    /** Writes the stored id back to the caller, as RETURNING does. */
    method UpsertItem(key: ItemKey, f: Found, newId: Id, ts: int) returns (id: Id)
      modifies this
      ensures Value() == UpsertedItem(old(Value()), key, f, newId, ts) && id == items[key].id
    {
      if key in items {
        items := items[key := items[key].(title := f.title, year := f.year)];
      } else {
        items := items[key := ItemRow(newId, f.title, f.year, ts)];
      }
      id := items[key].id;
    }

    method Ensure(item: Id)
      modifies this
      ensures Value() == EnsuredIdentity(old(Value()), item)
    {
      if item !in identity {
        identity := identity[item := PENDING];
      }
    }

    method UpsertFile(path: string, row: FileRow) returns (id: Id)
      modifies this
      ensures Value() == UpsertedFile(old(Value()), path, row) && id == files[path].id
    {
      if path in files {
        files := files[path := row.(id := files[path].id, createdAt := files[path].createdAt)];
      } else {
        files := files[path := row];
      }
      id := files[path].id;
    }

    /** Delete, then insert one by one. */
    method ReplaceStreams(file: Id, given: seq<Stream>)
      modifies this
      ensures Value() == old(Value()).(streams := old(streams)[file := given])
    {
      streams := streams[file := []];
      for i := 0 to |given|
        invariant Value() == old(Value()).(streams := old(streams)[file := given[..i]])
      {
        assert given[..i + 1] == given[..i] + [given[i]];
        streams := streams[file := streams[file] + [given[i]]];
      }
      assert given[..|given|] == given;
    }

    method PersistFile(library: nat, f: Found, env: Env, k: nat) returns (outcome: Outcome)
      modifies this
      ensures Value() == Persisted(old(Value()), library, f, env, k)
      ensures outcome == OutcomeOf(old(Value()), f, env, k)
    {
      var needsProbe := f.path !in files || files[f.path].probedAt.None? || files[f.path].size != f.size;
      var probe: Option<Probe> := None;
      if needsProbe {
        probe := env.probe(k);
        if probe.None? {
          return Failed;
        }
      }
      // A transaction that does not commit leaves every table as it was.
      if !env.commits(k) {
        return Failed;
      }
      var row := FileRow(env.fileId(k), 0, f.filename, f.size, None, None, None, env.clock(k));
      if needsProbe {
        row := row.(container := NonEmptyString(probe.value.container), duration := probe.value.duration,
                    probedAt := Some(env.clock(k)));
      } else {
        var existing := files[f.path];
        row := row.(container := existing.container, duration := existing.duration, probedAt := existing.probedAt);
      }
      var itemId := UpsertItem(KeyOf(library, f), f, env.itemId(k), env.clock(k));
      Ensure(itemId);
      var fileId := UpsertFile(f.path, row.(itemId := itemId));
      if !needsProbe {
        return Skipped;
      }
      ReplaceStreams(fileId, probe.value.streams);
      outcome := Probed;
    }

    /**
     Nothing is written when the library has no paths or they cannot be walked. A scan that is cancelled,
     or cannot write its progress, as it comes to a file ends there.
     */
    method ScanLibrary(library: nat, roots: seq<string>, walk: seq<string> -> Option<seq<Found>>, env: Env,
                       stops: nat -> bool)
      returns (ok: bool, probed: nat, skipped: nat, failed: nat)
      modifies this
      ensures ok <==> roots != [] && walk(roots).Some? && forall i :: 0 <= i <= |walk(roots).value| ==> !stops(i)
      ensures roots == [] || walk(roots).None? ==> Value() == old(Value()) && probed == skipped == failed == 0
      ensures roots != [] && walk(roots).Some? ==>
        var found := walk(roots).value; var n := Reached(stops, |found|);
        && Value() == Scanned(old(Value()), library, found, env, n)
        && probed == Tally(old(Value()), library, found, env, n, Probed)
        && skipped == Tally(old(Value()), library, found, env, n, Skipped)
        && failed == Tally(old(Value()), library, found, env, n, Failed)
    {
      hide Persisted, OutcomeOf;
      ok, probed, skipped, failed := false, 0, 0, 0;
      if roots == [] {
        return;
      }
      var walked := walk(roots);
      if walked.None? {
        return;
      }
      var found := walked.value;
      for i := 0 to |found|
        invariant forall j :: 0 <= j < i ==> !stops(j)
        invariant Value() == Scanned(old(Value()), library, found, env, i)
        invariant probed == Tally(old(Value()), library, found, env, i, Probed)
        invariant skipped == Tally(old(Value()), library, found, env, i, Skipped)
        invariant failed == Tally(old(Value()), library, found, env, i, Failed)
      {
        if stops(i) {
          return;
        }
        var outcome := PersistFile(library, found[i], env, i);
        match outcome {
          case Probed => probed := probed + 1;
          case Skipped => skipped := skipped + 1;
          case Failed => failed := failed + 1;
        }
      }
      ok := !stops(|found|);
    }
  }

  // ---- what a scan keeps, whatever fails ----

  /** Ids and creation times of rows already there never change, nor does an identity already decided. */
  ghost predicate Keeps(before: Db, after: Db)
  {
    && (forall key :: key in before.items ==>
          key in after.items && after.items[key].id == before.items[key].id &&
              after.items[key].createdAt == before.items[key].createdAt)
    && (forall path :: path in before.files ==>
          path in after.files && after.files[path].id == before.files[path].id &&
              after.files[path].createdAt == before.files[path].createdAt)
    && (forall item :: item in before.identity ==>
          item in after.identity && after.identity[item] == before.identity[item])
  }

  lemma {:induction false} ScanKeepsIds(db: Db, library: nat, found: seq<Found>, env: Env, n: nat)
    requires n <= |found|
    ensures Keeps(db, Scanned(db, library, found, env, n))
  {
    if n > 0 {
      ScanKeepsIds(db, library, found, env, n - 1);
    }
  }

  ghost predicate DistinctPaths(found: seq<Found>)
  {
    forall i, j :: 0 <= i < j < |found| ==> found[i].path != found[j].path
  }

  lemma OtherFileKept(db: Db, library: nat, f: Found, env: Env, k: nat, path: string)
    requires path != f.path
    ensures path in Persisted(db, library, f, env, k).files <==> path in db.files
    ensures path in db.files ==> Persisted(db, library, f, env, k).files[path] == db.files[path]
  {
  }

  lemma {:induction false} FileKeptOutside(db: Db, library: nat, found: seq<Found>, env: Env, m: nat, n: nat,
                                           path: string)
    requires m <= n <= |found| && forall i :: m <= i < n ==> found[i].path != path
    ensures var a, b := Scanned(db, library, found, env, m).files, Scanned(db, library, found, env, n).files;
      (path in a <==> path in b) && (path in a ==> a[path] == b[path])
    decreases n
  {
    if m < n {
      FileKeptOutside(db, library, found, env, m, n - 1, path);
      OtherFileKept(Scanned(db, library, found, env, n - 1), library, found[n - 1], env, n - 1, path);
    }
  }

  /** A failed probe changes no row at all, and the file is probed again by the next scan. */
  lemma FailedProbeRetried(db: Db, library: nat, found: seq<Found>, env: Env, k: nat)
    requires k < |found| && DistinctPaths(found)
    requires NeedsProbe(Scanned(db, library, found, env, k), found[k]) && env.probe(k).None?
    ensures Scanned(db, library, found, env, k + 1) == Scanned(db, library, found, env, k)
    ensures NeedsProbe(Scanned(db, library, found, env, |found|), found[k])
  {
    FileKeptOutside(db, library, found, env, k + 1, |found|, found[k].path);
  }

  // ---- scanning again ----

  /** Everything about a discovered file is stored, and its row leads to its item. */
  ghost predicate Settled(db: Db, library: nat, f: Found)
  {
    && !NeedsProbe(db, f)
    && KeyOf(library, f) in db.items
    && db.files[f.path].filename == f.filename
    && db.files[f.path].itemId == db.items[KeyOf(library, f)].id
    && db.items[KeyOf(library, f)].id in db.identity
  }

  ghost predicate AllSucceed(db: Db, library: nat, found: seq<Found>, env: Env)
  {
    forall k :: 0 <= k < |found| ==> !OutcomeOf(Scanned(db, library, found, env, k), found[k], env, k).Failed?
  }

  lemma PersistSettles(db: Db, library: nat, f: Found, env: Env, k: nat)
    requires !OutcomeOf(db, f, env, k).Failed?
    ensures Settled(Persisted(db, library, f, env, k), library, f)
  {
  }

  lemma SettledSurvives(db: Db, library: nat, f: Found, g: Found, env: Env, k: nat)
    requires Settled(db, library, f) && f.path != g.path
    ensures Settled(Persisted(db, library, g, env, k), library, f)
  {
  }

  lemma StepSucceeds(db: Db, library: nat, found: seq<Found>, env: Env, k: nat)
    requires k < |found| && AllSucceed(db, library, found, env)
    ensures !OutcomeOf(Scanned(db, library, found, env, k), found[k], env, k).Failed?
    ensures Scanned(db, library, found, env, k + 1) ==
      Persisted(Scanned(db, library, found, env, k), library, found[k], env, k)
  {
  }

  lemma {:induction false} ScanSettles(db: Db, library: nat, found: seq<Found>, env: Env, n: nat, i: nat)
    requires i < n <= |found| && DistinctPaths(found) && AllSucceed(db, library, found, env)
    ensures Settled(Scanned(db, library, found, env, n), library, found[i])
    decreases n
  {
    hide Settled, Persisted, OutcomeOf, AllSucceed, Scanned;
    var before := Scanned(db, library, found, env, n - 1);
    StepSucceeds(db, library, found, env, n - 1);
    if i == n - 1 {
      PersistSettles(before, library, found[i], env, i);
    } else {
      ScanSettles(db, library, found, env, n - 1, i);
      SettledSurvives(before, library, found[i], found[n - 1], env, n - 1);
    }
  }

  /** The item rows once each file in turn has given its item its title: the last one stands. */
  function Retitled(items: map<ItemKey, ItemRow>, library: nat, found: seq<Found>, n: nat): map<ItemKey, ItemRow>
    requires n <= |found|
  {
    if n == 0 then items
    else
      var before, f := Retitled(items, library, found, n - 1), found[n - 1];
      var key := KeyOf(library, f);
      if key in before then before[key := before[key].(title := f.title, year := f.year)] else before
  }

  /** A settled file is skipped, and only its item's title is written. */
  lemma SettledSkipped(db: Db, library: nat, f: Found, env: Env, k: nat)
    requires Settled(db, library, f) && env.commits(k)
    ensures OutcomeOf(db, f, env, k) == Skipped
    ensures var key := KeyOf(library, f);
      Persisted(db, library, f, env, k) ==
          db.(items := db.items[key := db.items[key].(title := f.title, year := f.year)])
  {
    var key := KeyOf(library, f);
    var db1 := UpsertedItem(db, key, f, env.itemId(k), env.clock(k));
    assert EnsuredIdentity(db1, db1.items[key].id) == db1;
    assert db1.files[f.path := db1.files[f.path]] == db1.files;
  }

  lemma SettledAfterRetitling(db: Db, library: nat, f: Found, key: ItemKey, title: string, year: Option<int>)
    requires Settled(db, library, f) && key in db.items
    ensures Settled(db.(items := db.items[key := db.items[key].(title := title, year := year)]), library, f)
  {
  }

  lemma {:induction false} RescanOnlyRetitles(db: Db, library: nat, found: seq<Found>, env: Env, n: nat)
    requires n <= |found| && (forall k :: env.commits(k)) && forall f :: f in found ==> Settled(db, library, f)
    ensures Scanned(db, library, found, env, n) == db.(items := Retitled(db.items, library, found, n))
    ensures forall f :: f in found ==> Settled(Scanned(db, library, found, env, n), library, f)
    ensures forall k :: 0 <= k < n ==> OutcomeOf(Scanned(db, library, found, env, k), found[k], env, k) == Skipped
  {
    hide Settled, Persisted, OutcomeOf;
    if n > 0 {
      var before, f := Scanned(db, library, found, env, n - 1), found[n - 1];
      RescanOnlyRetitles(db, library, found, env, n - 1);
      SettledSkipped(before, library, f, env, n - 1);
      SettledKey(before, library, f);
      forall g | g in found
        ensures Settled(Scanned(db, library, found, env, n), library, g)
      {
        SettledAfterRetitling(before, library, g, KeyOf(library, f), f.title, f.year);
      }
    }
  }

  lemma SettledKey(db: Db, library: nat, f: Found)
    requires Settled(db, library, f)
    ensures KeyOf(library, f) in db.items
  {
  }

  ghost predicate LastOf(library: nat, found: seq<Found>, n: nat, i: nat)
    requires i < n <= |found|
  {
    forall j :: i < j < n ==> KeyOf(library, found[j]) != KeyOf(library, found[i])
  }

  ghost predicate TitledBy(items: map<ItemKey, ItemRow>, key: ItemKey, f: Found)
  {
    key in items && items[key].title == f.title && items[key].year == f.year
  }

  lemma PersistTitles(db: Db, library: nat, f: Found, env: Env, k: nat, key: ItemKey)
    requires !OutcomeOf(db, f, env, k).Failed?
    ensures var items := Persisted(db, library, f, env, k).items;
      if key == KeyOf(library, f) then TitledBy(items, key, f)
      else (key in items <==> key in db.items) && (key in db.items ==> items[key] == db.items[key])
  {
  }

  /** The title an item ends up with is that of its last file. */
  lemma {:induction false} ScanTitles(db: Db, library: nat, found: seq<Found>, env: Env, n: nat, i: nat)
    requires i < n <= |found| && AllSucceed(db, library, found, env) && LastOf(library, found, n, i)
    ensures TitledBy(Scanned(db, library, found, env, n).items, KeyOf(library, found[i]), found[i])
    decreases n
  {
    hide OutcomeOf, Persisted, AllSucceed, Scanned, KeyOf;
    StepSucceeds(db, library, found, env, n - 1);
    PersistTitles(Scanned(db, library, found, env, n - 1), library, found[n - 1], env, n - 1, KeyOf(library, found[i]));
    if i < n - 1 {
      ScanTitles(db, library, found, env, n - 1, i);
    }
  }

  lemma {:induction false} RetitledKeeps(items: map<ItemKey, ItemRow>, library: nat, found: seq<Found>, n: nat,
                                         key: ItemKey)
    requires n <= |found| && key in items
    ensures var after := Retitled(items, library, found, n);
      key in after && after[key].id == items[key].id && after[key].createdAt == items[key].createdAt
    ensures (forall i :: 0 <= i < n ==> KeyOf(library, found[i]) != key) ==>
      Retitled(items, library, found, n)[key] == items[key]
  {
    hide KeyOf;
    if n > 0 {
      RetitledKeeps(items, library, found, n - 1, key);
    }
  }

  lemma {:induction false} RetitledByLast(items: map<ItemKey, ItemRow>, library: nat, found: seq<Found>, n: nat, i: nat)
    requires i < n <= |found| && KeyOf(library, found[i]) in items && LastOf(library, found, n, i)
    ensures TitledBy(Retitled(items, library, found, n), KeyOf(library, found[i]), found[i])
  {
    hide KeyOf;
    RetitledKeeps(items, library, found, n - 1, KeyOf(library, found[i]));
    if i < n - 1 {
      RetitledByLast(items, library, found, n - 1, i);
    }
  }

  lemma {:induction false} LastFor(library: nat, found: seq<Found>, n: nat, key: ItemKey) returns (i: int)
    requires n <= |found|
    ensures i == -1 ==> forall k :: 0 <= k < n ==> KeyOf(library, found[k]) != key
    ensures i != -1 ==> 0 <= i < n && KeyOf(library, found[i]) == key && LastOf(library, found, n, i)
  {
    if n == 0 {
      i := -1;
    } else if KeyOf(library, found[n - 1]) == key {
      i := n - 1;
    } else {
      i := LastFor(library, found, n - 1, key);
    }
  }

  /**
   Scanning an unchanged tree after a fully successful scan probes nothing and leaves every row, id,
   creation time, probe result, stream set and identity exactly as it was.
   */
  lemma RescanChangesNothing(db: Db, library: nat, found: seq<Found>, env: Env, again: Env)
    requires DistinctPaths(found) && AllSucceed(db, library, found, env)
    requires forall k :: again.commits(k)
    ensures var first := Scanned(db, library, found, env, |found|);
      && Scanned(first, library, found, again, |found|) == first
      && (forall k :: 0 <= k < |found| ==>
            OutcomeOf(Scanned(first, library, found, again, k), found[k], again, k) == Skipped)
  {
    hide Settled, OutcomeOf, Scanned;
    var first := Scanned(db, library, found, env, |found|);
    forall f | f in found
      ensures Settled(first, library, f)
    {
      var i :| 0 <= i < |found| && found[i] == f;
      ScanSettles(db, library, found, env, |found|, i);
    }
    RescanOnlyRetitles(first, library, found, again, |found|);
    var after := Retitled(first.items, library, found, |found|);
    forall key | key in first.items
      ensures key in after && after[key] == first.items[key]
    {
      RetitledKeeps(first.items, library, found, |found|, key);
      var i := LastFor(library, found, |found|, key);
      if i != -1 {
        ScanTitles(db, library, found, env, |found|, i);
        RetitledByLast(first.items, library, found, |found|, i);
      }
    }
    RetitledKeys(first.items, library, found, |found|);
    assert after == first.items;
  }

  lemma {:induction false} RetitledKeys(items: map<ItemKey, ItemRow>, library: nat, found: seq<Found>, n: nat)
    requires n <= |found|
    ensures Retitled(items, library, found, n).Keys == items.Keys
  {
    if n > 0 {
      RetitledKeys(items, library, found, n - 1);
    }
  }

  // ---- what a probe leaves ----

  ghost predicate FileIdsDistinct(db: Db)
  {
    forall p, q :: p in db.files && q in db.files && p != q ==> db.files[p].id != db.files[q].id
  }

  /** Minted file ids are new, and none is minted twice. */
  ghost predicate FreshFileIds(db: Db, env: Env)
  {
    && (forall p, k :: p in db.files ==> db.files[p].id != env.fileId(k))
    && (forall j, k :: j != k ==> env.fileId(j) != env.fileId(k))
  }

  lemma {:induction false} IdsStayDistinct(db: Db, library: nat, found: seq<Found>, env: Env, n: nat)
    requires n <= |found| && FileIdsDistinct(db) && FreshFileIds(db, env)
    ensures FileIdsDistinct(Scanned(db, library, found, env, n))
    ensures forall p, k :: p in Scanned(db, library, found, env, n).files && k >= n ==>
      Scanned(db, library, found, env, n).files[p].id != env.fileId(k)
  {
    hide Persisted;
    if n > 0 {
      IdsStayDistinct(db, library, found, env, n - 1);
      PersistIds(Scanned(db, library, found, env, n - 1), library, found[n - 1], env, n - 1);
    }
  }

  lemma PersistIds(db: Db, library: nat, f: Found, env: Env, k: nat)
    ensures forall p :: p in Persisted(db, library, f, env, k).files ==>
      var id := Persisted(db, library, f, env, k).files[p].id;
      if p in db.files then id == db.files[p].id else p == f.path && id == env.fileId(k)
  {
  }

  /** The probe's findings are what the row and the streams say. */
  ghost predicate Carries(db: Db, path: string, p: Probe, ts: int)
  {
    && path in db.files
    && db.files[path].container == NonEmptyString(p.container) && db.files[path].duration == p.duration
    && db.files[path].probedAt == Some(ts)
    && db.files[path].id in db.streams && db.streams[db.files[path].id] == p.streams
  }

  lemma ProbeStored(db: Db, library: nat, f: Found, env: Env, k: nat)
    requires OutcomeOf(db, f, env, k) == Probed
    ensures Carries(Persisted(db, library, f, env, k), f.path, env.probe(k).value, env.clock(k))
  {
  }

  lemma CarriesSurvives(db: Db, library: nat, path: string, p: Probe, ts: int, g: Found, env: Env, k: nat)
    requires Carries(db, path, p, ts) && g.path != path && FileIdsDistinct(Persisted(db, library, g, env, k))
    ensures Carries(Persisted(db, library, g, env, k), path, p, ts)
  {
    hide NonEmptyString;
    OtherFileKept(db, library, g, env, k, path);
  }

  lemma {:induction false} ProbeKept(db: Db, library: nat, found: seq<Found>, env: Env, k: nat, n: nat)
    requires k < n <= |found| && DistinctPaths(found) && FileIdsDistinct(db) && FreshFileIds(db, env)
    requires OutcomeOf(Scanned(db, library, found, env, k), found[k], env, k) == Probed
    ensures Carries(Scanned(db, library, found, env, n), found[k].path, env.probe(k).value, env.clock(k))
    decreases n
  {
    hide Carries, Persisted, FileIdsDistinct, FreshFileIds;
    var before := Scanned(db, library, found, env, n - 1);
    if k == n - 1 {
      ProbeStored(before, library, found[k], env, k);
    } else {
      ProbeKept(db, library, found, env, k, n - 1);
      IdsStayDistinct(db, library, found, env, n);
      CarriesSurvives(before, library, found[k].path, env.probe(k).value, env.clock(k), found[n - 1], env, n - 1);
    }
  }

  /** At the end of a scan every file it probed carries exactly what its probe found, streams included. */
  lemma ScanStoresProbes(db: Db, library: nat, found: seq<Found>, env: Env, k: nat)
    requires k < |found| && DistinctPaths(found) && FileIdsDistinct(db) && FreshFileIds(db, env)
    requires OutcomeOf(Scanned(db, library, found, env, k), found[k], env, k) == Probed
    ensures Carries(Scanned(db, library, found, env, |found|), found[k].path, env.probe(k).value, env.clock(k))
  {
    ProbeKept(db, library, found, env, k, |found|);
  }

  // ---- one file, in terms of the tables ----

  /** What is stored of a file tells that it need not be probed: it has been, at the size it has now. */
  ghost predicate ProbedAsIs(db: Db, f: Found)
  {
    f.path in db.files && db.files[f.path].probedAt.Some? && db.files[f.path].size == f.size
  }

  /** The item's row: a known one keeps its id and creation time, and any takes the title and year found. */
  ghost predicate ItemRead(a: Db, b: Db, library: nat, f: Found, newId: Id, ts: int)
  {
    var key := ItemKey(library, f.sourcePath);
    && key in b.items && b.items[key].title == f.title && b.items[key].year == f.year
    && b.items[key].id == (if key in a.items then a.items[key].id else newId)
    && b.items[key].createdAt == (if key in a.items then a.items[key].createdAt else ts)
    && (forall other :: other != key ==>
          (other in b.items <==> other in a.items) && (other in a.items ==> b.items[other] == a.items[other]))
    && b.items[key].id in b.identity
    && (b.items[key].id !in a.identity ==> b.identity[b.items[key].id] == "pending")
    && (forall id :: id in a.identity ==> id in b.identity && b.identity[id] == a.identity[id])
  }

  /** The file's row: a known one keeps its id and creation time, and any takes name, size and item. */
  ghost predicate FileRead(a: Db, b: Db, library: nat, f: Found, newId: Id, ts: int)
  {
    && f.path in b.files && b.files[f.path].filename == f.filename && b.files[f.path].size == f.size
    && ItemKey(library, f.sourcePath) in b.items
    && b.files[f.path].itemId == b.items[ItemKey(library, f.sourcePath)].id
    && b.files[f.path].id == (if f.path in a.files then a.files[f.path].id else newId)
    && b.files[f.path].createdAt == (if f.path in a.files then a.files[f.path].createdAt else ts)
    && forall other :: other != f.path ==>
         (other in b.files <==> other in a.files) && (other in a.files ==> b.files[other] == a.files[other])
  }

  /**
   One file of a scan. It is probed unless it has been at the size that it has now; when the probe or the
   transaction fails nothing is written. Otherwise item and file are as found, and container, duration, time
   of probing and streams are those of the new probe, or stay when there was none.
   */
  lemma PersistMeasured(db: Db, library: nat, f: Found, env: Env, k: nat)
    ensures var after := Persisted(db, library, f, env, k);
      if (!ProbedAsIs(db, f) && env.probe(k).None?) || !env.commits(k) then after == db
      else
        && ItemRead(db, after, library, f, env.itemId(k), env.clock(k))
        && FileRead(db, after, library, f, env.fileId(k), env.clock(k))
        && var row := after.files[f.path];
        if ProbedAsIs(db, f) then
          && row.container == db.files[f.path].container && row.duration == db.files[f.path].duration
          && row.probedAt == db.files[f.path].probedAt && after.streams == db.streams
        else
          var p := env.probe(k).value;
          && row.container == (if p.container == "" then None else Some(p.container))
          && row.duration == p.duration && row.probedAt == Some(env.clock(k))
          && after.streams == db.streams[row.id := p.streams]
    ensures OutcomeOf(db, f, env, k) ==
      if (!ProbedAsIs(db, f) && env.probe(k).None?) || !env.commits(k) then Failed
      else if ProbedAsIs(db, f) then Skipped
      else Probed
  {
  }

  /** A file that is stored at another size, or was never probed, ends the scan carrying its new probe. */
  lemma ChangedFileReprobed(db: Db, library: nat, found: seq<Found>, env: Env, k: nat)
    requires k < |found| && DistinctPaths(found) && FileIdsDistinct(db) && FreshFileIds(db, env)
    requires !ProbedAsIs(db, found[k]) && env.probe(k).Some? && env.commits(k)
    ensures var after, p := Scanned(db, library, found, env, |found|), env.probe(k).value;
      && found[k].path in after.files
      && var row := after.files[found[k].path];
      && row.size == found[k].size && row.container == (if p.container == "" then None else Some(p.container))
      && row.duration == p.duration && row.probedAt == Some(env.clock(k))
      && row.id in after.streams && after.streams[row.id] == p.streams
  {
    hide Persisted, OutcomeOf, FileIdsDistinct, FreshFileIds;
    var before := Scanned(db, library, found, env, k);
    FileKeptOutside(db, library, found, env, 0, k, found[k].path);
    assert Scanned(db, library, found, env, 0) == db;
    PersistMeasured(before, library, found[k], env, k);
    ScanStoresProbes(db, library, found, env, k);
    StepScanned(db, library, found, env, k);
    FileKeptOutside(db, library, found, env, k + 1, |found|, found[k].path);
  }

  lemma StepScanned(db: Db, library: nat, found: seq<Found>, env: Env, k: nat)
    requires k < |found|
    ensures Scanned(db, library, found, env, k + 1) ==
      Persisted(Scanned(db, library, found, env, k), library, found[k], env, k)
  {
  }
}
