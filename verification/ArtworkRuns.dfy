/**
 Every interleaving of saves, row writes, sweeps, reconciling passes and crashes over the image
 store (internal/media/artwork/artwork.go, internal/service/artwork.go). A save is no longer one
 step: its bytes arrive in pieces, and anything may happen in between. Temporary names are random
 in the source; here a new one is never that of a file in place or of a save under way.
 */
module ArtworkRuns {
  import opened Text
  import opened ArtworkStore

  /** A save under way, or one whose file is in place and whose row is still to be written. */
  datatype Saver =
    | Writing(key: Key, ext: string, nonce: nat, body: Body, received: nat)
    | Landed(key: Key, path: Path, tag: string)

  /** What does not change: the size cap, the library of each item, and the digest. */
  datatype Setting = Setting(max: nat, home: nat -> nat, hash: Digest)

  /** A library's refresh, ordinary or of everything: it reconciles what it listed, then saves images. */
  datatype Pass = Reconciling(all: bool, left: set<(Key, Path)>) | Refreshing(all: bool)

  /** An image row: where the bytes are, and the digest they had when the row was written. */
  datatype Row = Row(path: Path, tag: string)

  /** The digest of what was last moved to a name, and whether its row has been written since. */
  datatype Landing = Landing(tag: string, recorded: bool)

  /**
   `passes` holds the one refresh a library may have under way. `begun` remembers every response body
   a save was started with, and `landings` what was last moved to each name; no step reads them.
   */
  datatype World = World(
    files: Files, savers: map<nat, Saver>, rows: map<Key, Option<Row>>, passes: map<nat, Pass>,
    begun: set<Body>, landings: map<Path, Landing>)

  datatype Step =
    | StartPass(library: nat, all: bool)
    | CheckOne(library: nat, key: Key, path: Path)
    | FinishReconcile(library: nat)
    | EndPass(library: nat)
    | Begin(id: nat, key: Key, ext: string, nonce: nat, body: Body)
    | Receive(id: nat, n: nat)
    | Finish(id: nat)
    | Abandon(id: nat)
    | Record(id: nat, stored: bool)
    | RecordNone(key: Key)
    | SweepOne(path: Path)
    | Crash
    | Wipe(lost: set<Path>)

  function TempOf(s: Saver): Path
    requires s.Writing?
  {
    Temp(s.key.item, s.key.imageType, s.nonce)
  }

  function Incoming(max: nat, s: Saver): Bytes
    requires s.Writing?
  {
    Copied(max, s.body)
  }

  ghost predicate IsWriting(w: World, id: nat)
  {
    id in w.savers && w.savers[id].Writing?
  }

  /** The item's library is being refreshed, and has been reconciled. */
  ghost predicate MayStore(home: nat -> nat, w: World, key: Key)
  {
    home(key.item) in w.passes && w.passes[home(key.item)].Refreshing?
  }

  /** No save of the library is under way. */
  ghost predicate Idle(home: nat -> nat, w: World, library: nat)
  {
    forall id :: id in w.savers ==> home(w.savers[id].key.item) != library
  }

  /** A pass takes one image at a time, and an ordinary one only those without a row. */
  ghost predicate MayTry(home: nat -> nat, w: World, key: Key)
  {
    && MayStore(home, w, key) && Idle(home, w, home(key.item))
    && (!w.passes[home(key.item)].all ==> key !in w.rows)
  }

  ghost predicate IsReconciling(w: World, library: nat)
  {
    library in w.passes && w.passes[library].Reconciling?
  }

  /** A library has at most one refresh at a time; its saves belong to it and end before it does. */
  ghost predicate Enabled(env: Setting, w: World, s: Step)
  {
    match s
    case StartPass(library, _) => library !in w.passes
    case CheckOne(library, key, path) => IsReconciling(w, library) && (key, path) in w.passes[library].left
    case FinishReconcile(library) => IsReconciling(w, library) && w.passes[library].left == {}
    case EndPass(library) => library in w.passes && Idle(env.home, w, library)
    case Begin(id, key, _, nonce, _) =>
      var name := Temp(key.item, key.imageType, nonce);
      && MayTry(env.home, w, key) && id !in w.savers && name !in w.files
      && forall other :: IsWriting(w, other) ==> TempOf(w.savers[other]) != name
    case Receive(id, n) => IsWriting(w, id) && w.savers[id].received + n <= |Incoming(env.max, w.savers[id])|
    case Finish(id) => IsWriting(w, id) && w.savers[id].received == |Incoming(env.max, w.savers[id])|
    case Abandon(id) => IsWriting(w, id)
    case Record(id, _) => id in w.savers && w.savers[id].Landed?
    case RecordNone(key) => MayTry(env.home, w, key)
    case SweepOne(path) => path.Temp?
    case Crash => true
    case Wipe(_) => true
  }

  /** A finished copy is refused, or moved into place when its temporary file is still there. */
  ghost function Finished(env: Setting, w: World, id: nat): World
    requires IsWriting(w, id)
  {
    var s := w.savers[id];
    var tmp := TempOf(s);
    var final := Final(s.key.item, s.key.imageType, s.ext);
    if Whole(env.max, s.body) && tmp in w.files then
      var tag := env.hash(w.files[tmp]);
      w.(files := w.files[final := w.files[tmp]] - {tmp},
         savers := w.savers[id := Landed(s.key, final, tag)],
         landings := w.landings[final := Landing(tag, false)])
    else w.(files := w.files - {tmp}, savers := w.savers - {id})
  }

  /** Writing the row of a landed image; a lock or a failing database leaves the row that was there. */
  ghost function Recorded(w: World, id: nat, stored: bool): World
    requires id in w.savers && w.savers[id].Landed?
  {
    var s := w.savers[id];
    if stored then
      w.(rows := w.rows[s.key := Some(Row(s.path, s.tag))],
         savers := w.savers - {id},
         landings := w.landings[s.path := Landing(s.tag, true)])
    else w.(savers := w.savers - {id})
  }

  /** What a reconciling pass lists: the library's rows that name a file. */
  ghost function Listed(home: nat -> nat, w: World, library: nat): set<(Key, Path)>
  {
    set key | key in w.rows && w.rows[key].Some? && home(key.item) == library :: (key, w.rows[key].value.path)
  }

  ghost function Next(env: Setting, w: World, s: Step): World
    requires Enabled(env, w, s)
  {
    match s
    case StartPass(library, all) =>
      w.(passes := w.passes[library := Reconciling(all, Listed(env.home, w, library))])
    case CheckOne(library, key, path) =>
      w.(rows := if path in w.files then w.rows else w.rows - {key},
         passes := w.passes[library := w.passes[library].(left := w.passes[library].left - {(key, path)})])
    case FinishReconcile(library) => w.(passes := w.passes[library := Refreshing(w.passes[library].all)])
    case EndPass(library) => w.(passes := w.passes - {library})
    case Begin(id, key, ext, nonce, body) =>
      w.(files := w.files[Temp(key.item, key.imageType, nonce) := []],
         savers := w.savers[id := Writing(key, ext, nonce, body, 0)],
         begun := w.begun + {body})
    case Receive(id, n) =>
      var v := w.savers[id];
      var piece := Incoming(env.max, v)[v.received..v.received + n];
      w.(files := if TempOf(v) in w.files then w.files[TempOf(v) := w.files[TempOf(v)] + piece] else w.files,
         savers := w.savers[id := v.(received := v.received + n)])
    case Finish(id) => Finished(env, w, id)
    case Abandon(id) => w.(files := w.files - {TempOf(w.savers[id])}, savers := w.savers - {id})
    case Record(id, stored) => Recorded(w, id, stored)
    case RecordNone(key) => w.(rows := w.rows[key := None])
    case SweepOne(path) => w.(files := w.files - {path})
    case Crash => w.(savers := map[], passes := map[])
    case Wipe(lost) => w.(files := w.files - lost)
  }

  /** A step of the passes themselves: it touches neither files nor saves. */
  ghost predicate Quiet(s: Step)
  {
    s.StartPass? || s.CheckOne? || s.FinishReconcile? || s.EndPass? || s.RecordNone?
  }

  lemma QuietStep(env: Setting, w: World, s: Step)
    requires Enabled(env, w, s) && Quiet(s)
    ensures var w' := Next(env, w, s);
      && w'.files == w.files && w'.savers == w.savers && w'.begun == w.begun && w'.landings == w.landings
      && (forall key :: key in w'.rows ==> (key in w.rows && w'.rows[key] == w.rows[key]) || w'.rows[key] == None)
  {
    hide Listed;
  }

  ghost predicate IsRun(env: Setting, w: World, steps: seq<Step>)
    decreases |steps|
  {
    steps == [] || (Enabled(env, w, steps[0]) && IsRun(env, Next(env, w, steps[0]), steps[1..]))
  }

  ghost function After(env: Setting, w: World, steps: seq<Step>): World
    requires IsRun(env, w, steps)
    decreases |steps|
  {
    if steps == [] then w else After(env, Next(env, w, steps[0]), steps[1..])
  }

  ghost predicate WipeFree(steps: seq<Step>)
  {
    forall s :: s in steps ==> !s.Wipe?
  }

  // ---- no partial file is ever exposed ----

  /** The whole of some response: not empty, within the cap, delivered to its end. */
  ghost predicate Complete(max: nat, w: World, bytes: Bytes)
  {
    0 < |bytes| <= max && Body(bytes, false) in w.begun
  }

  ghost predicate FilesComplete(max: nat, w: World)
  {
    forall p: Path :: p in w.files && p.Final? ==> Complete(max, w, w.files[p])
  }

  /** What a save has received so far is what its temporary file holds, if that is still there. */
  ghost predicate WriterSound(max: nat, w: World, id: nat)
    requires IsWriting(w, id)
  {
    var s := w.savers[id];
    && s.body in w.begun && s.received <= |Incoming(max, s)|
    && (TempOf(s) in w.files ==> w.files[TempOf(s)] == Incoming(max, s)[..s.received])
  }

  ghost predicate WritersSound(max: nat, w: World)
  {
    && (forall id :: IsWriting(w, id) ==> WriterSound(max, w, id))
    && (forall i, j :: IsWriting(w, i) && IsWriting(w, j) && i != j ==> TempOf(w.savers[i]) != TempOf(w.savers[j]))
  }

  lemma StepKeepsWriter(env: Setting, w: World, s: Step, id: nat)
    requires WritersSound(env.max, w) && Enabled(env, w, s) && IsWriting(Next(env, w, s), id)
    ensures WriterSound(env.max, Next(env, w, s), id)
  {
    if Quiet(s) {
      QuietStep(env, w, s);
      hide Next, Enabled;
      assert WriterSound(env.max, w, id);
    } else {
      LoudKeepsWriter(env, w, s, id);
    }
  }

  lemma LoudKeepsWriter(env: Setting, w: World, s: Step, id: nat)
    requires WritersSound(env.max, w) && Enabled(env, w, s) && !Quiet(s) && IsWriting(Next(env, w, s), id)
    ensures WriterSound(env.max, Next(env, w, s), id)
  {
    hide MayTry, Listed, Recorded;
    RecordedSavers(w, s);
    if IsWriting(w, id) {
      assert WriterSound(env.max, w, id);
      if s.Receive? && s.id == id {
        var v := w.savers[id];
        var all := Incoming(env.max, v);
        assert all[..v.received] + all[v.received..v.received + s.n] == all[..v.received + s.n];
      }
    }
  }

  lemma StepKeepsNames(env: Setting, w: World, s: Step, i: nat, j: nat)
    requires WritersSound(env.max, w) && Enabled(env, w, s) && i != j
    requires var w' := Next(env, w, s); IsWriting(w', i) && IsWriting(w', j)
    ensures var w' := Next(env, w, s); TempOf(w'.savers[i]) != TempOf(w'.savers[j])
  {
    hide WriterSound, MayTry, Listed, Recorded;
    RecordedSavers(w, s);
  }

  lemma RecordedSavers(w: World, s: Step)
    requires s.Record? ==> s.id in w.savers && w.savers[s.id].Landed?
    ensures s.Record? ==> Recorded(w, s.id, s.stored).savers == w.savers - {s.id}
    ensures s.Record? ==> Recorded(w, s.id, s.stored).files == w.files && Recorded(w, s.id, s.stored).begun == w.begun
  {
  }

  lemma StepKeepsWriters(env: Setting, w: World, s: Step)
    requires WritersSound(env.max, w) && Enabled(env, w, s)
    ensures WritersSound(env.max, Next(env, w, s))
  {
    hide WriterSound, Enabled, Next;
    var w' := Next(env, w, s);
    forall id | IsWriting(w', id)
      ensures WriterSound(env.max, w', id)
    {
      StepKeepsWriter(env, w, s, id);
    }
    forall i, j | IsWriting(w', i) && IsWriting(w', j) && i != j
      ensures TempOf(w'.savers[i]) != TempOf(w'.savers[j])
    {
      StepKeepsNames(env, w, s, i, j);
    }
  }

  lemma StepKeepsFiles(env: Setting, w: World, s: Step)
    requires WritersSound(env.max, w) && FilesComplete(env.max, w) && Enabled(env, w, s)
    ensures FilesComplete(env.max, Next(env, w, s))
  {
    var w' := Next(env, w, s);
    if s.Finish? {
      var v := w.savers[s.id];
      assert WriterSound(env.max, w, s.id);
      assert Incoming(env.max, v)[..v.received] == Incoming(env.max, v);
      assert !v.body.fails ==> v.body == Body(v.body.data, false);
    }
    forall p: Path | p in w'.files && p.Final?
      ensures Complete(env.max, w', w'.files[p])
    {
      assert p in w.files ==> Complete(env.max, w, w.files[p]);
    }
  }

  /** In every run, wipes included, a final name never holds a partial, empty or oversized file. */
  lemma {:induction false} PartialNeverExposed(env: Setting, w: World, steps: seq<Step>)
    requires WritersSound(env.max, w) && FilesComplete(env.max, w) && IsRun(env, w, steps)
    ensures WritersSound(env.max, After(env, w, steps)) && FilesComplete(env.max, After(env, w, steps))
    decreases |steps|
  {
    hide WritersSound, FilesComplete, Enabled, Next;
    if steps != [] {
      StepKeepsWriters(env, w, steps[0]);
      StepKeepsFiles(env, w, steps[0]);
      PartialNeverExposed(env, Next(env, w, steps[0]), steps[1..]);
    }
  }

  // ---- a sweep can only make a save fail ----

  /** The temporary file of a save under way is gone. */
  ghost predicate LostTemp(w: World, id: nat)
  {
    IsWriting(w, id) && TempOf(w.savers[id]) !in w.files
  }

  lemma SweepTouchesNoImage(env: Setting, w: World, path: Path)
    requires Enabled(env, w, SweepOne(path))
    ensures var w' := Next(env, w, SweepOne(path));
      && w'.rows == w.rows && w'.savers == w.savers
      && (forall p: Path :: p.Final? ==>
            (p in w'.files <==> p in w.files) && (p in w.files ==> w'.files[p] == w.files[p]))
      && (forall id :: IsWriting(w, id) && TempOf(w.savers[id]) == path ==> LostTemp(w', id))
  {
  }

  /** A step either leaves the save without its file or ends it without any effect on the images. */
  lemma LostTempStep(env: Setting, w: World, s: Step, id: nat)
    requires WritersSound(env.max, w) && LostTemp(w, id) && Enabled(env, w, s)
    ensures var w' := Next(env, w, s);
      || LostTemp(w', id)
      || (id !in w'.savers && w'.rows == w.rows
          && forall p: Path :: p in w.files ==> p in w'.files && w'.files[p] == w.files[p])
  {
    var w' := Next(env, w, s);
    if IsWriting(w', id) {
      assert TempOf(w'.savers[id]) == TempOf(w.savers[id]);
      if s.Finish? && s.id != id {
        assert TempOf(w.savers[s.id]) != TempOf(w.savers[id]);
      }
    }
  }

  ghost predicate NeverBegins(steps: seq<Step>, id: nat)
  {
    forall s :: s in steps ==> !(s.Begin? && s.id == id)
  }

  /** However the run goes on, a save whose file was swept never puts an image in place. */
  lemma {:induction false} SweptSaveFails(env: Setting, w: World, steps: seq<Step>, id: nat)
    requires WritersSound(env.max, w) && IsRun(env, w, steps) && NeverBegins(steps, id)
    requires LostTemp(w, id) || id !in w.savers
    ensures LostTemp(After(env, w, steps), id) || id !in After(env, w, steps).savers
    decreases |steps|
  {
    hide WritersSound, Enabled, Next, LostTemp;
    if steps != [] {
      var w' := Next(env, w, steps[0]);
      StepKeepsWriters(env, w, steps[0]);
      assert steps[0] in steps && forall s :: s in steps[1..] ==> s in steps;
      if LostTemp(w, id) {
        LostTempStep(env, w, steps[0], id);
      } else {
        NotBegun(env, w, steps[0], id);
      }
      SweptSaveFails(env, w', steps[1..], id);
    }
  }

  lemma NotBegun(env: Setting, w: World, s: Step, id: nat)
    requires id !in w.savers && Enabled(env, w, s) && !(s.Begin? && s.id == id)
    ensures id !in Next(env, w, s).savers
  {
    hide MayTry, Listed;
  }

  // ---- every row is served ----

  ghost predicate Dangles(w: World, key: Key)
  {
    key in w.rows && w.rows[key].Some? && w.rows[key].value.path !in w.files
  }

  /** Every save belongs to a refresh that has reconciled its library. */
  ghost predicate SaversBelong(home: nat -> nat, w: World)
  {
    forall id :: id in w.savers ==> MayStore(home, w, w.savers[id].key)
  }

  ghost predicate NamesSound(w: World)
  {
    && (forall id :: id in w.savers && w.savers[id].Landed? ==> w.savers[id].path.Final?)
    && (forall key :: key in w.rows && w.rows[key].Some? ==> w.rows[key].value.path.Final?)
  }

  ghost predicate Orderly(home: nat -> nat, w: World)
  {
    SaversBelong(home, w) && NamesSound(w)
  }

  lemma StepKeepsOrder(env: Setting, w: World, s: Step)
    requires Orderly(env.home, w) && Enabled(env, w, s)
    ensures Orderly(env.home, Next(env, w, s))
  {
    var w' := Next(env, w, s);
    forall id | id in w'.savers
      ensures MayStore(env.home, w', w'.savers[id].key)
    {
      assert id in w.savers ==> MayStore(env.home, w, w.savers[id].key) && w'.savers[id].key == w.savers[id].key;
    }
  }

  /** Saves of the library whose row is still to be written have their file in place. */
  ghost predicate LandedInPlace(home: nat -> nat, w: World, library: nat)
  {
    forall id :: id in w.savers && w.savers[id].Landed? && home(w.savers[id].key.item) == library ==>
      w.savers[id].path in w.files
  }

  ghost predicate NoneDangle(home: nat -> nat, w: World, library: nat)
  {
    forall key :: Dangles(w, key) ==> home(key.item) != library
  }

  /** A reconciling pass has still to check every dangling row of its library; afterwards there is none. */
  ghost predicate PassSound(home: nat -> nat, w: World, library: nat)
    requires library in w.passes
  {
    match w.passes[library]
    case Reconciling(_, left) => forall key :: Dangles(w, key) && home(key.item) == library ==>
        (key, w.rows[key].value.path) in left
    case Refreshing(_) => NoneDangle(home, w, library)
  }

  ghost predicate Steady(home: nat -> nat, w: World, library: nat)
  {
    && Orderly(home, w) && LandedInPlace(home, w, library)
    && (library in w.passes ==> PassSound(home, w, library))
  }

  lemma FinalsStay(env: Setting, w: World, s: Step, p: Path)
    requires Enabled(env, w, s) && !s.Wipe? && p.Final? && p in w.files
    ensures p in Next(env, w, s).files
  {
  }

  lemma StepKeepsLanded(env: Setting, w: World, s: Step, library: nat)
    requires NamesSound(w) && LandedInPlace(env.home, w, library) && Enabled(env, w, s) && !s.Wipe?
    ensures LandedInPlace(env.home, Next(env, w, s), library)
  {
  }

  /** No step but a wipe makes a row dangle. */
  lemma NoNewDangling(env: Setting, w: World, s: Step, key: Key)
    requires NamesSound(w) && LandedInPlace(env.home, w, env.home(key.item)) && Enabled(env, w, s) && !s.Wipe?
    requires Dangles(Next(env, w, s), key)
    ensures Dangles(w, key) && Next(env, w, s).rows[key] == w.rows[key]
  {
    var path := Next(env, w, s).rows[key].value.path;
    if path in w.files && path.Final? {
      FinalsStay(env, w, s, path);
    }
  }

  lemma StepKeepsPass(env: Setting, w: World, s: Step, library: nat)
    requires Steady(env.home, w, library) && Enabled(env, w, s) && !s.Wipe?
    requires library in Next(env, w, s).passes
    ensures PassSound(env.home, Next(env, w, s), library)
  {
    hide Orderly, LandedInPlace;
    var w' := Next(env, w, s);
    forall key | Dangles(w', key) && env.home(key.item) == library
      ensures w'.passes[library].Reconciling? && (key, w'.rows[key].value.path) in w'.passes[library].left
    {
      OrderlyNames(env.home, w);
      NoNewDangling(env, w, s, key);
    }
  }

  lemma OrderlyNames(home: nat -> nat, w: World)
    requires Orderly(home, w)
    ensures NamesSound(w)
  {
  }

  lemma {:induction false} RunKeepsSteady(env: Setting, w: World, steps: seq<Step>, library: nat)
    requires Steady(env.home, w, library) && IsRun(env, w, steps) && WipeFree(steps)
    ensures Steady(env.home, After(env, w, steps), library)
    decreases |steps|
  {
    hide Orderly, LandedInPlace, PassSound, Enabled, Next;
    if steps != [] {
      assert steps[0] in steps && forall s :: s in steps[1..] ==> s in steps;
      OrderlyNames(env.home, w);
      StepKeepsOrder(env, w, steps[0]);
      StepKeepsLanded(env, w, steps[0], library);
      if library in Next(env, w, steps[0]).passes {
        StepKeepsPass(env, w, steps[0], library);
      }
      RunKeepsSteady(env, Next(env, w, steps[0]), steps[1..], library);
    }
  }

  lemma {:induction false} RunKeepsServed(env: Setting, w: World, steps: seq<Step>, library: nat)
    requires Orderly(env.home, w) && LandedInPlace(env.home, w, library) && NoneDangle(env.home, w, library)
    requires IsRun(env, w, steps) && WipeFree(steps)
    ensures Orderly(env.home, After(env, w, steps)) && NoneDangle(env.home, After(env, w, steps), library)
    decreases |steps|
  {
    hide Orderly, LandedInPlace, Enabled, Next, Dangles;
    if steps != [] {
      var w' := Next(env, w, steps[0]);
      assert steps[0] in steps && forall s :: s in steps[1..] ==> s in steps;
      OrderlyNames(env.home, w);
      StepKeepsOrder(env, w, steps[0]);
      StepKeepsLanded(env, w, steps[0], library);
      forall key | Dangles(w', key)
        ensures env.home(key.item) != library
      {
        if env.home(key.item) == library {
          NoNewDangling(env, w, steps[0], key);
        }
      }
      RunKeepsServed(env, w', steps[1..], library);
    }
  }

  /** The row names a file that is there, not empty, within the cap and the whole of some response. */
  ghost predicate Served(max: nat, w: World, key: Key)
  {
    key in w.rows && w.rows[key].Some? ==>
      var path := w.rows[key].value.path; path in w.files && Complete(max, w, w.files[path])
  }

  lemma ServedUnlessDangling(env: Setting, w: World, key: Key)
    requires Orderly(env.home, w) && FilesComplete(env.max, w) && !Dangles(w, key)
    ensures Served(env.max, w, key)
  {
  }

  const EMPTY := World(map[], map[], map[], map[], {}, map[])

  /** Without external deletion every row that names a file is served, in every reachable state. */
  lemma EveryRowServed(env: Setting, steps: seq<Step>, key: Key)
    requires IsRun(env, EMPTY, steps) && WipeFree(steps)
    ensures Served(env.max, After(env, EMPTY, steps), key)
  {
    PartialNeverExposed(env, EMPTY, steps);
    RunKeepsServed(env, EMPTY, steps, env.home(key.item));
    ServedUnlessDangling(env, After(env, EMPTY, steps), key);
  }

  lemma {:induction false} RunKeepsOrder(env: Setting, w: World, steps: seq<Step>)
    requires Orderly(env.home, w) && IsRun(env, w, steps)
    ensures Orderly(env.home, After(env, w, steps))
    decreases |steps|
  {
    hide Orderly, Enabled, Next;
    if steps != [] {
      StepKeepsOrder(env, w, steps[0]);
      RunKeepsOrder(env, Next(env, w, steps[0]), steps[1..]);
    }
  }

  /** A pass that starts finds no save of its library, and lists every row that could dangle. */
  lemma StartIsSteady(env: Setting, w: World, library: nat, all: bool)
    requires Orderly(env.home, w) && Enabled(env, w, StartPass(library, all))
    ensures Steady(env.home, Next(env, w, StartPass(library, all)), library)
  {
    StepKeepsOrder(env, w, StartPass(library, all));
    hide NamesSound;
  }

  /** The library's pass has checked everything it listed. */
  ghost predicate HasReconciled(w: World, library: nat)
  {
    library in w.passes && (w.passes[library].Reconciling? ==> w.passes[library].left == {})
  }

  /**
   After any history at all, wipes included: once a refresh of a library has reconciled what it listed,
   every row of the library is served again, and stays so until files are next deleted from outside,
   whatever other passes, saves, sweeps and crashes do meanwhile.
   */
  lemma ReconcileRepairs(env: Setting, library: nat, all: bool, before: seq<Step>, during: seq<Step>,
                         later: seq<Step>, key: Key)
    requires IsRun(env, EMPTY, before)
    requires Enabled(env, After(env, EMPTY, before), StartPass(library, all))
    requires var started := Next(env, After(env, EMPTY, before), StartPass(library, all));
      && IsRun(env, started, during) && WipeFree(during)
      && HasReconciled(After(env, started, during), library)
      && IsRun(env, After(env, started, during), later) && WipeFree(later)
    requires env.home(key.item) == library
    ensures var started := Next(env, After(env, EMPTY, before), StartPass(library, all));
      Served(env.max, After(env, After(env, started, during), later), key)
  {
    hide Enabled, Next, Orderly, LandedInPlace, WritersSound, FilesComplete;
    var w := After(env, EMPTY, before);
    var started := Next(env, w, StartPass(library, all));
    var reconciled := After(env, started, during);
    NothingYet(env, library);
    PartialNeverExposed(env, EMPTY, before);
    RunKeepsOrder(env, EMPTY, before);
    StartIsSteady(env, w, library, all);
    StepKeepsWriters(env, w, StartPass(library, all));
    StepKeepsFiles(env, w, StartPass(library, all));
    PartialNeverExposed(env, started, during);
    RunKeepsSteady(env, started, during, library);
    PartialNeverExposed(env, reconciled, later);
    RunKeepsServed(env, reconciled, later, library);
    ServedUnlessDangling(env, After(env, reconciled, later), key);
  }

  lemma NothingYet(env: Setting, library: nat)
    ensures Orderly(env.home, EMPTY) && WritersSound(env.max, EMPTY) && FilesComplete(env.max, EMPTY)
  {
  }

  /** A save nothing interferes with has the effect its method promises. */
  lemma UninterruptedSave(env: Setting, w: World, id: nat, key: Key, ext: string, nonce: nat, body: Body)
    requires Enabled(env, w, Begin(id, key, ext, nonce, body))
    ensures var steps := [Begin(id, key, ext, nonce, body), Receive(id, |Copied(env.max, body)|), Finish(id)];
      && IsRun(env, w, steps)
      && After(env, w, steps).files ==
           if Whole(env.max, body) then w.files[Final(key.item, key.imageType, ext) := body.data] else w.files
  {
    hide Next, Enabled;
    var steps := [Begin(id, key, ext, nonce, body), Receive(id, |Copied(env.max, body)|), Finish(id)];
    var w1 := Next(env, w, steps[0]);
    BegunFacts(env, w, id, key, ext, nonce, body);
    WholeCopyReceived(env, w1, id);
    var w2 := Next(env, w1, steps[1]);
    FinishFiles(env, w2, id);
    RunOfOne(env, w2, steps[2]);
    assert steps[1..][1..] == [steps[2]];
    assert IsRun(env, w1, steps[1..]);
  }

  lemma BegunFacts(env: Setting, w: World, id: nat, key: Key, ext: string, nonce: nat, body: Body)
    requires Enabled(env, w, Begin(id, key, ext, nonce, body))
    ensures Temp(key.item, key.imageType, nonce) !in w.files && id !in w.savers
    ensures Next(env, w, Begin(id, key, ext, nonce, body)) ==
      w.(files := w.files[Temp(key.item, key.imageType, nonce) := []],
         savers := w.savers[id := Writing(key, ext, nonce, body, 0)],
         begun := w.begun + {body})
  {
  }

  lemma FinishFiles(env: Setting, w: World, id: nat)
    requires IsWriting(w, id) && w.savers[id].received == |Incoming(env.max, w.savers[id])|
    requires TempOf(w.savers[id]) in w.files && w.files[TempOf(w.savers[id])] == Incoming(env.max, w.savers[id])
    ensures Enabled(env, w, Finish(id))
    ensures var s := w.savers[id];
      Next(env, w, Finish(id)).files ==
        if Whole(env.max, s.body) then w.files[Final(s.key.item, s.key.imageType, s.ext) := s.body.data] - {TempOf(s)}
        else w.files - {TempOf(s)}
  {
  }

  lemma RunOfOne(env: Setting, w: World, s: Step)
    requires Enabled(env, w, s)
    ensures IsRun(env, w, [s]) && After(env, w, [s]) == Next(env, w, s)
  {
    hide Enabled, Next;
    assert [s][1..] == [];
  }

  lemma WholeCopyReceived(env: Setting, w: World, id: nat)
    requires IsWriting(w, id) && w.savers[id].received == 0
    requires TempOf(w.savers[id]) in w.files && w.files[TempOf(w.savers[id])] == []
    ensures var all := Incoming(env.max, w.savers[id]);
      && Enabled(env, w, Receive(id, |all|))
      && Next(env, w, Receive(id, |all|)) ==
           w.(files := w.files[TempOf(w.savers[id]) := all], savers := w.savers[id := w.savers[id].(received := |all|)])
  {
    var all := Incoming(env.max, w.savers[id]);
    assert [] + all[0..|all|] == all;
  }
}
