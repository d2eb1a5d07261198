/**
 Whether an image's tag is the digest of its bytes, over every interleaving of passes, crashes, sweeps
 and wipes (internal/media/artwork/artwork.go, internal/service/artwork.go). A full refresh moves the
 new bytes over the old file before it writes the row, so anything that keeps the row from being written
 leaves the old tag on the new bytes.
 */
module ArtworkTags {
  import opened Text
  import opened ArtworkStore
  import opened ArtworkRuns

  /** The row names a file that is there, with another digest. */
  ghost predicate TagWrong(env: Setting, w: World, key: Key)
  {
    && key in w.rows && w.rows[key].Some? && w.rows[key].value.path in w.files
    && w.rows[key].value.tag != env.hash(w.files[w.rows[key].value.path])
  }

  ghost predicate OwnPath(path: Path, key: Key)
  {
    path.Final? && path.item == key.item && path.imageType == key.imageType
  }

  /** A save is alone in its library. */
  ghost predicate Alone(env: Setting, w: World)
  {
    forall i, j :: i in w.savers && j in w.savers && i != j ==>
      env.home(w.savers[i].key.item) != env.home(w.savers[j].key.item)
  }

  ghost predicate LandedKnown(w: World, id: nat)
    requires id in w.savers
  {
    w.savers[id].Landed? ==>
      && OwnPath(w.savers[id].path, w.savers[id].key)
      && w.savers[id].path in w.landings && w.landings[w.savers[id].path] == Landing(w.savers[id].tag, false)
  }

  ghost predicate FileKnown(env: Setting, w: World, p: Path)
    requires p in w.files
  {
    p.Final? ==> p in w.landings && w.landings[p].tag == env.hash(w.files[p])
  }

  ghost predicate RowKnown(w: World, key: Key)
    requires key in w.rows
  {
    w.rows[key].Some? ==>
      var r := w.rows[key].value;
      && OwnPath(r.path, key) && r.path in w.landings
      && (w.landings[r.path].recorded ==> w.landings[r.path].tag == r.tag)
  }

  /** What was last moved to each name explains its file, the saves under way and the rows. */
  ghost predicate Explained(env: Setting, w: World)
  {
    && Alone(env, w)
    && (forall id :: id in w.savers ==> LandedKnown(w, id))
    && (forall p :: p in w.files ==> FileKnown(env, w, p))
    && (forall key :: key in w.rows ==> RowKnown(w, key))
  }

  lemma StepKeepsAlone(env: Setting, w: World, s: Step)
    requires Alone(env, w) && Enabled(env, w, s)
    ensures Alone(env, Next(env, w, s))
  {
    hide Listed;
    forall i, j | i in Next(env, w, s).savers && j in Next(env, w, s).savers && i != j
      ensures env.home(Next(env, w, s).savers[i].key.item) != env.home(Next(env, w, s).savers[j].key.item)
    {
    }
  }

  lemma StepKeepsFile(env: Setting, w: World, s: Step, p: Path)
    requires Explained(env, w) && Enabled(env, w, s) && p in Next(env, w, s).files
    ensures FileKnown(env, Next(env, w, s), p)
  {
    if Quiet(s) {
      QuietStep(env, w, s);
      hide Enabled, Next;
      assert FileKnown(env, w, p);
    } else {
      LoudStepKeepsFile(env, w, s, p);
    }
  }

  lemma LoudStepKeepsFile(env: Setting, w: World, s: Step, p: Path)
    requires !Quiet(s) && Explained(env, w) && Enabled(env, w, s) && p in Next(env, w, s).files
    ensures FileKnown(env, Next(env, w, s), p)
  {
    hide Listed, MayTry, RowKnown, Alone;
    if p in w.files {
      assert FileKnown(env, w, p);
    }
    if s.Record? {
      assert LandedKnown(w, s.id);
    }
  }

  lemma StepKeepsSaver(env: Setting, w: World, s: Step, id: nat)
    requires Explained(env, w) && Enabled(env, w, s) && id in Next(env, w, s).savers
    ensures LandedKnown(Next(env, w, s), id)
  {
    if Quiet(s) {
      QuietStep(env, w, s);
      hide Enabled, Next;
      assert LandedKnown(w, id);
    } else {
      LoudStepKeepsSaver(env, w, s, id);
    }
  }

  lemma LoudStepKeepsSaver(env: Setting, w: World, s: Step, id: nat)
    requires !Quiet(s) && Explained(env, w) && Enabled(env, w, s) && id in Next(env, w, s).savers
    ensures LandedKnown(Next(env, w, s), id)
  {
    hide Listed, MayTry, RowKnown, FileKnown;
    if id in w.savers {
      assert LandedKnown(w, id);
    }
    if s.Record? {
      assert LandedKnown(w, s.id);
    }
  }

  lemma StepKeepsRow(env: Setting, w: World, s: Step, key: Key)
    requires Explained(env, w) && Enabled(env, w, s) && key in Next(env, w, s).rows
    ensures RowKnown(Next(env, w, s), key)
  {
    if Quiet(s) {
      QuietStep(env, w, s);
      hide Enabled, Next;
      assert key in w.rows ==> RowKnown(w, key);
    } else {
      LoudStepKeepsRow(env, w, s, key);
    }
  }

  lemma LoudStepKeepsRow(env: Setting, w: World, s: Step, key: Key)
    requires !Quiet(s) && Explained(env, w) && Enabled(env, w, s) && key in Next(env, w, s).rows
    ensures RowKnown(Next(env, w, s), key)
  {
    hide Listed, MayTry, FileKnown, Alone;
    if key in w.rows {
      assert RowKnown(w, key);
    }
    if s.Record? {
      assert LandedKnown(w, s.id);
    }
  }

  lemma StepExplains(env: Setting, w: World, s: Step)
    requires Explained(env, w) && Enabled(env, w, s)
    ensures Explained(env, Next(env, w, s))
  {
    StepKeepsAlone(env, w, s);
    hide Enabled, Next, Alone, LandedKnown, FileKnown, RowKnown;
    var w' := Next(env, w, s);
    forall id | id in w'.savers
      ensures LandedKnown(w', id)
    {
      StepKeepsSaver(env, w, s, id);
    }
    forall p | p in w'.files
      ensures FileKnown(env, w', p)
    {
      StepKeepsFile(env, w, s, p);
    }
    forall key | key in w'.rows
      ensures RowKnown(w', key)
    {
      StepKeepsRow(env, w, s, key);
    }
  }

  lemma {:induction false} RunExplains(env: Setting, w: World, steps: seq<Step>)
    requires Explained(env, w) && IsRun(env, w, steps)
    ensures Explained(env, After(env, w, steps))
    decreases |steps|
  {
    hide Explained, Enabled, Next;
    if steps != [] {
      StepExplains(env, w, steps[0]);
      RunExplains(env, Next(env, w, steps[0]), steps[1..]);
    }
  }

  /**
   In every reachable state, full refreshes, locks, failing writes, crashes, sweeps and wipes included: a
   tag is wrong exactly when what was last moved to the row's name has another digest and has not been
   recorded.
   */
  lemma TagWrongExactly(env: Setting, steps: seq<Step>, key: Key)
    requires IsRun(env, EMPTY, steps)
    ensures var w := After(env, EMPTY, steps);
      TagWrong(env, w, key) <==>
        && key in w.rows && w.rows[key].Some? && w.rows[key].value.path in w.files
        && w.rows[key].value.path in w.landings
        && !w.landings[w.rows[key].value.path].recorded
        && w.landings[w.rows[key].value.path].tag != w.rows[key].value.tag
  {
    var w := After(env, EMPTY, steps);
    RunExplains(env, EMPTY, steps);
    if key in w.rows {
      assert RowKnown(w, key);
      if w.rows[key].Some? && w.rows[key].value.path in w.files {
        assert FileKnown(env, w, w.rows[key].value.path);
      }
    }
  }

  // ---- passes that store what they save ----

  /** No crash, and no row write that a lock refuses or the database fails. */
  ghost predicate StoresAll(steps: seq<Step>)
  {
    forall s :: s in steps ==> !s.Crash? && (s.Record? ==> s.stored)
  }

  /** What has not been recorded belongs to a save that still has its row to write. */
  ghost predicate Owed(w: World)
  {
    forall p :: p in w.landings && !w.landings[p].recorded ==>
      exists id :: id in w.savers && w.savers[id].Landed? && w.savers[id].path == p
  }

  lemma StepKeepsOwed(env: Setting, w: World, s: Step)
    requires Owed(w) && Enabled(env, w, s) && !s.Crash? && (s.Record? ==> s.stored)
    ensures Owed(Next(env, w, s))
  {
    hide Listed, MayTry;
    var w' := Next(env, w, s);
    forall p | p in w'.landings && !w'.landings[p].recorded
      ensures exists id :: id in w'.savers && w'.savers[id].Landed? && w'.savers[id].path == p
    {
      if p in w.landings && !w.landings[p].recorded {
        var id :| id in w.savers && w.savers[id].Landed? && w.savers[id].path == p;
        assert id in w'.savers ==> w'.savers[id] == w.savers[id];
      }
      if s.Finish? && s.id in w'.savers {
        assert w'.savers[s.id].Landed?;
      }
    }
  }

  lemma {:induction false} RunKeepsOwed(env: Setting, w: World, steps: seq<Step>)
    requires Owed(w) && IsRun(env, w, steps) && StoresAll(steps)
    ensures Owed(After(env, w, steps))
    decreases |steps|
  {
    hide Owed, Enabled, Next;
    if steps != [] {
      assert steps[0] in steps && forall s :: s in steps[1..] ==> s in steps;
      StepKeepsOwed(env, w, steps[0]);
      RunKeepsOwed(env, Next(env, w, steps[0]), steps[1..]);
    }
  }

  /** Passes of either kind whose rows are all written, with no crash, leave no tag wrong between two saves. */
  lemma StoredRunsKeepTags(env: Setting, steps: seq<Step>, key: Key)
    requires IsRun(env, EMPTY, steps) && StoresAll(steps) && After(env, EMPTY, steps).savers == map[]
    ensures !TagWrong(env, After(env, EMPTY, steps), key)
  {
    RunKeepsOwed(env, EMPTY, steps);
    TagWrongExactly(env, steps, key);
  }

  // ---- ordinary passes ----

  ghost predicate Ordinary(steps: seq<Step>)
  {
    forall s :: s in steps && s.StartPass? ==> !s.all
  }

  /** What an image row or a landed save says of a file that is there. */
  ghost predicate Says(env: Setting, w: World, path: Path, tag: string)
  {
    path in w.files ==> tag == env.hash(w.files[path])
  }

  ghost predicate RowRight(env: Setting, w: World, key: Key)
    requires key in w.rows
  {
    w.rows[key].Some? ==>
      OwnPath(w.rows[key].value.path, key) && Says(env, w, w.rows[key].value.path, w.rows[key].value.tag)
  }

  ghost predicate LandedRight(env: Setting, w: World, id: nat)
    requires id in w.savers
  {
    w.savers[id].Landed? ==>
      OwnPath(w.savers[id].path, w.savers[id].key) && Says(env, w, w.savers[id].path, w.savers[id].tag)
  }

  ghost predicate SaverRight(env: Setting, w: World, id: nat)
    requires id in w.savers
  {
    w.savers[id].key !in w.rows && LandedRight(env, w, id)
  }

  ghost predicate Right(env: Setting, w: World)
  {
    && Alone(env, w)
    && (forall library :: library in w.passes ==> !w.passes[library].all)
    && (forall id :: id in w.savers ==> SaverRight(env, w, id))
    && (forall key :: key in w.rows ==> RowRight(env, w, key))
  }

  lemma StepKeepsRowRight(env: Setting, w: World, s: Step, key: Key)
    requires Right(env, w) && Enabled(env, w, s) && key in Next(env, w, s).rows
    ensures RowRight(env, Next(env, w, s), key)
  {
    if Quiet(s) {
      QuietStep(env, w, s);
      hide Enabled, Next;
      assert key in w.rows ==> RowRight(env, w, key);
    } else {
      LoudStepKeepsRowRight(env, w, s, key);
    }
  }

  lemma LoudStepKeepsRowRight(env: Setting, w: World, s: Step, key: Key)
    requires !Quiet(s) && Right(env, w) && Enabled(env, w, s) && key in Next(env, w, s).rows
    ensures RowRight(env, Next(env, w, s), key)
  {
    hide Listed, MayTry, Alone;
    if key in w.rows {
      assert RowRight(env, w, key);
    }
    if s.Record? || s.Finish? {
      assert SaverRight(env, w, s.id);
    }
  }

  lemma StepKeepsNoRow(env: Setting, w: World, s: Step, id: nat)
    requires Right(env, w) && Enabled(env, w, s) && id in Next(env, w, s).savers
    ensures Next(env, w, s).savers[id].key !in Next(env, w, s).rows
  {
    hide Listed, RowRight, LandedRight;
    if id in w.savers {
      assert SaverRight(env, w, id);
    }
    if s.Record? || s.Finish? {
      assert SaverRight(env, w, s.id);
    }
  }

  lemma StepKeepsLandedRight(env: Setting, w: World, s: Step, id: nat)
    requires Right(env, w) && Enabled(env, w, s) && id in Next(env, w, s).savers
    ensures LandedRight(env, Next(env, w, s), id)
  {
    if Quiet(s) {
      QuietStep(env, w, s);
      hide Enabled, Next;
      assert SaverRight(env, w, id);
    } else {
      LoudKeepsLandedRight(env, w, s, id);
    }
  }

  lemma LoudKeepsLandedRight(env: Setting, w: World, s: Step, id: nat)
    requires !Quiet(s) && Right(env, w) && Enabled(env, w, s) && id in Next(env, w, s).savers
    ensures LandedRight(env, Next(env, w, s), id)
  {
    hide Listed, RowRight, MayTry;
    if id in w.savers {
      assert SaverRight(env, w, id);
    }
  }

  lemma StepKeepsSaverRight(env: Setting, w: World, s: Step, id: nat)
    requires Right(env, w) && Enabled(env, w, s) && id in Next(env, w, s).savers
    ensures SaverRight(env, Next(env, w, s), id)
  {
    StepKeepsNoRow(env, w, s, id);
    StepKeepsLandedRight(env, w, s, id);
    hide Enabled, Next, LandedRight, Right;
  }

  lemma StepKeepsRight(env: Setting, w: World, s: Step)
    requires Right(env, w) && Enabled(env, w, s) && (s.StartPass? ==> !s.all)
    ensures Right(env, Next(env, w, s))
  {
    StepKeepsAlone(env, w, s);
    PassesStayOrdinary(env, w, s);
    hide Enabled, Next, Alone, SaverRight, RowRight;
    var w' := Next(env, w, s);
    forall id | id in w'.savers
      ensures SaverRight(env, w', id)
    {
      StepKeepsSaverRight(env, w, s, id);
    }
    forall key | key in w'.rows
      ensures RowRight(env, w', key)
    {
      StepKeepsRowRight(env, w, s, key);
    }
  }

  lemma PassesStayOrdinary(env: Setting, w: World, s: Step)
    requires Enabled(env, w, s) && (s.StartPass? ==> !s.all)
    requires forall library :: library in w.passes ==> !w.passes[library].all
    ensures forall library :: library in Next(env, w, s).passes ==> !Next(env, w, s).passes[library].all
  {
    hide Listed, MayTry;
  }

  lemma {:induction false} RunKeepsRight(env: Setting, w: World, steps: seq<Step>)
    requires Right(env, w) && IsRun(env, w, steps) && Ordinary(steps)
    ensures Right(env, After(env, w, steps))
    decreases |steps|
  {
    hide Right, Enabled, Next;
    if steps != [] {
      assert steps[0] in steps && forall s :: s in steps[1..] ==> s in steps;
      StepKeepsRight(env, w, steps[0]);
      RunKeepsRight(env, Next(env, w, steps[0]), steps[1..]);
    }
  }

  /** In every run of ordinary passes, crashes, sweeps, locks, failing writes and wipes included, no tag is wrong. */
  lemma OrdinaryRunsKeepTags(env: Setting, steps: seq<Step>, key: Key)
    requires IsRun(env, EMPTY, steps) && Ordinary(steps)
    ensures !TagWrong(env, After(env, EMPTY, steps), key)
  {
    RunKeepsRight(env, EMPTY, steps);
    if key in After(env, EMPTY, steps).rows {
      assert RowRight(env, After(env, EMPTY, steps), key);
    }
  }

  // ---- a run that leaves a tag wrong ----

  /** A full refresh that saves an image anew, and a process that dies before the row is written. */
  function SaveThenCrash(id: nat, key: Key, ext: string, body: Body): seq<Step>
  {
    [Begin(id, key, ext, 0, body), Receive(id, |body.data|), Finish(id), Crash]
  }

  lemma {:induction false} RunConcat(env: Setting, w: World, a: seq<Step>, b: seq<Step>)
    requires IsRun(env, w, a) && IsRun(env, After(env, w, a), b)
    ensures IsRun(env, w, a + b) && After(env, w, a + b) == After(env, After(env, w, a), b)
    decreases |a|
  {
    hide Enabled, Next;
    if a == [] {
      assert a + b == b;
    } else {
      RunConcat(env, Next(env, w, a[0]), a[1..], b);
      assert (a + b)[1..] == a[1..] + b;
    }
  }

  /** The state after a whole body has been moved into place. */
  lemma SavedWhole(env: Setting, w: World, id: nat, key: Key, ext: string, body: Body) returns (w': World)
    requires Enabled(env, w, Begin(id, key, ext, 0, body)) && Whole(env.max, body)
    ensures var steps := [Begin(id, key, ext, 0, body), Receive(id, |body.data|), Finish(id)];
      IsRun(env, w, steps) && After(env, w, steps) == w'
    ensures var path, tag := Final(key.item, key.imageType, ext), env.hash(body.data);
      && w'.savers == w.savers[id := Landed(key, path, tag)] && w'.rows == w.rows && w'.passes == w.passes
      && w'.files == w.files[path := body.data] && w'.landings == w.landings[path := Landing(tag, false)]
  {
    hide Next, Enabled;
    var steps := [Begin(id, key, ext, 0, body), Receive(id, |body.data|), Finish(id)];
    var w1 := Next(env, w, steps[0]);
    BegunFacts(env, w, id, key, ext, 0, body);
    WholeCopyReceived(env, w1, id);
    var w2 := Next(env, w1, steps[1]);
    FinishWhole(env, w2, id);
    w' := Next(env, w2, steps[2]);
    RunOfOne(env, w2, steps[2]);
    assert steps[1..][1..] == [steps[2]];
    assert IsRun(env, w1, steps[1..]);
  }

  lemma FinishWhole(env: Setting, w: World, id: nat)
    requires IsWriting(w, id) && Whole(env.max, w.savers[id].body) && w.savers[id].received == |w.savers[id].body.data|
    requires TempOf(w.savers[id]) in w.files && w.files[TempOf(w.savers[id])] == w.savers[id].body.data
    ensures var s := w.savers[id]; var path, tag := Final(s.key.item, s.key.imageType, s.ext), env.hash(s.body.data);
      && Enabled(env, w, Finish(id))
      && Next(env, w, Finish(id)) ==
           w.(files := w.files[path := s.body.data] - {TempOf(s)},
              savers := w.savers[id := Landed(s.key, path, tag)],
              landings := w.landings[path := Landing(tag, false)])
  {
  }

  /**
   From any state: a full refresh of a stored image whose row the process does not live to write leaves
   its tag wrong, whenever the digest has changed. No lock is involved, no refused write and no wipe.
   */
  lemma CrashLeavesTagWrong(env: Setting, w: World, id: nat, key: Key, ext: string, body: Body)
    requires Enabled(env, w, Begin(id, key, ext, 0, body)) && Whole(env.max, body)
    requires key in w.rows && w.rows[key].Some? && w.rows[key].value.path == Final(key.item, key.imageType, ext)
    requires w.rows[key].value.tag != env.hash(body.data)
    ensures IsRun(env, w, SaveThenCrash(id, key, ext, body))
    ensures TagWrong(env, After(env, w, SaveThenCrash(id, key, ext, body)), key)
  {
    hide Enabled, IsRun, After;
    var save := [Begin(id, key, ext, 0, body), Receive(id, |body.data|), Finish(id)];
    var landed := SavedWhole(env, w, id, key, ext, body);
    assert SaveThenCrash(id, key, ext, body) == save + [Crash];
    CrashEnabled(env, landed);
    RunOfOne(env, landed, Crash);
    RunConcat(env, w, save, [Crash]);
  }

  lemma CrashEnabled(env: Setting, w: World)
    ensures Enabled(env, w, Crash)
  {
  }

  /** Such a state is reached from nothing: one full refresh saves and records an image, the next saves it again. */
  lemma CrashReachable(env: Setting, key: Key, ext: string, first: Body, second: Body) returns (steps: seq<Step>)
    requires Whole(env.max, first) && Whole(env.max, second) && env.hash(first.data) != env.hash(second.data)
    ensures IsRun(env, EMPTY, steps) && WipeFree(steps) && (forall s :: s in steps && s.Record? ==> s.stored)
    ensures TagWrong(env, After(env, EMPTY, steps), key)
  {
    var library := env.home(key.item);
    var start := [StartPass(library, true), FinishReconcile(library)];
    var w1 := Started(env, key, ext, first);
    var save := [Begin(0, key, ext, 0, first), Receive(0, |first.data|), Finish(0)];
    var w2 := SavedWhole(env, w1, 0, key, ext, first);
    hide IsRun, After;
    RunConcat(env, EMPTY, start, save);
    RecordThenAgain(env, w2, key, ext, second);
    var w3 := Next(env, w2, Record(0, true));
    RunOfOne(env, w2, Record(0, true));
    hide Enabled, Next;
    RunConcat(env, EMPTY, start + save, [Record(0, true)]);
    CrashLeavesTagWrong(env, w3, 0, key, ext, second);
    var again := SaveThenCrash(0, key, ext, second);
    steps := start + save + [Record(0, true)] + again;
    RunConcat(env, EMPTY, start + save + [Record(0, true)], again);
    forall s | s in steps
      ensures !s.Wipe? && (s.Record? ==> s.stored)
    {
      assert s in start || s in save || s == Record(0, true) || s in again;
    }
  }

  lemma Started(env: Setting, key: Key, ext: string, body: Body) returns (w: World)
    ensures var start := [StartPass(env.home(key.item), true), FinishReconcile(env.home(key.item))];
      IsRun(env, EMPTY, start) && After(env, EMPTY, start) == w
    ensures w == EMPTY.(passes := map[env.home(key.item) := Refreshing(true)])
    ensures Enabled(env, w, Begin(0, key, ext, 0, body))
  {
    var library := env.home(key.item);
    var w1 := Next(env, EMPTY, StartPass(library, true));
    assert Listed(env.home, EMPTY, library) == {};
    w := Next(env, w1, FinishReconcile(library));
    RunOfOne(env, w1, FinishReconcile(library));
    assert [StartPass(library, true), FinishReconcile(library)][1..] == [FinishReconcile(library)];
  }

  lemma RecordThenAgain(env: Setting, w: World, key: Key, ext: string, body: Body)
    requires exists tag ::
      tag != env.hash(body.data) && w.savers == map[0 := Landed(key, Final(key.item, key.imageType, ext), tag)]
    requires w.passes == map[env.home(key.item) := Refreshing(true)] && Temp(key.item, key.imageType, 0) !in w.files
    ensures Enabled(env, w, Record(0, true))
    ensures var w' := Next(env, w, Record(0, true));
      && Enabled(env, w', Begin(0, key, ext, 0, body))
      && key in w'.rows && w'.rows[key].Some?
      && w'.rows[key].value.path == Final(key.item, key.imageType, ext) && w'.rows[key].value.tag != env.hash(body.data)
  {
  }
}
