/**
 The schema migration runner (internal/db/migrate.go): a ledger of what was applied, one
 transaction per migration, and runners serialised by an advisory lock.
 */
module Migrations {
  import opened Text

  datatype Migration = Migration(version: int, name: string, sql: string, checksum: string)

  datatype Applied = Applied(name: string, checksum: string)

  /** The ledger, and every migration whose SQL the database has kept, in order. */
  datatype State = State(ledger: map<int, Applied>, executed: seq<Migration>)

  const EMPTY := State(map[], [])

  function Recorded(m: Migration): Applied
  {
    Applied(m.name, m.checksum)
  }

  /** One committed migration: its SQL and its ledger row together. */
  function Apply(s: State, m: Migration): State
  {
    State(s.ledger[m.version := Recorded(m)], s.executed + [m])
  }

  function ApplyAll(s: State, ms: seq<Migration>): State
  {
    if ms == [] then s else Apply(ApplyAll(s, ms[..|ms| - 1]), ms[|ms| - 1])
  }

  /** The migrations a run still has to apply. */
  function Pending(ms: seq<Migration>, ledger: map<int, Applied>): seq<Migration>
  {
    if ms == [] then []
    else Pending(ms[..|ms| - 1], ledger) + (if ms[|ms| - 1].version in ledger then [] else [ms[|ms| - 1]])
  }

  // ---- loading ----

  ghost predicate StrictlySorted(ms: seq<Migration>)
  {
    forall i, j :: 0 <= i < j < |ms| ==> ms[i].version < ms[j].version
  }

  ghost predicate Sorted(ms: seq<Migration>)
  {
    forall i, j :: 0 <= i < j < |ms| ==> ms[i].version <= ms[j].version
  }

  function Insert(m: Migration, ms: seq<Migration>): seq<Migration>
  {
    if ms == [] || m.version < ms[0].version then [m] + ms else [ms[0]] + Insert(m, ms[1..])
  }

  function SortByVersion(ms: seq<Migration>): seq<Migration>
  {
    if ms == [] then [] else Insert(ms[|ms| - 1], SortByVersion(ms[..|ms| - 1]))
  }

  lemma {:induction false} InsertAdds(m: Migration, ms: seq<Migration>)
    ensures multiset(Insert(m, ms)) == multiset(ms) + multiset{m} && |Insert(m, ms)| == |ms| + 1
  {
    if ms != [] && m.version >= ms[0].version {
      InsertAdds(m, ms[1..]);
      assert ms == [ms[0]] + ms[1..];
    }
  }

  lemma {:induction false} InsertSorts(m: Migration, ms: seq<Migration>)
    requires Sorted(ms)
    ensures Sorted(Insert(m, ms))
  {
    if ms != [] && m.version >= ms[0].version {
      var rest := Insert(m, ms[1..]);
      InsertSorts(m, ms[1..]);
      InsertAdds(m, ms[1..]);
      forall j | 0 <= j < |rest|
        ensures ms[0].version <= rest[j].version
      {
        assert rest[j] in multiset(rest);
        assert rest[j] == m || rest[j] in ms[1..];
      }
      hide Insert;
      ConsSorted(ms[0], rest);
    }
  }

  lemma ConsSorted(first: Migration, rest: seq<Migration>)
    requires Sorted(rest) && forall j :: 0 <= j < |rest| ==> first.version <= rest[j].version
    ensures Sorted([first] + rest)
  {
  }

  lemma {:induction false} SortSorts(ms: seq<Migration>)
    ensures Sorted(SortByVersion(ms)) && multiset(SortByVersion(ms)) == multiset(ms) && |SortByVersion(ms)| == |ms|
  {
    if ms != [] {
      var init, last := ms[..|ms| - 1], ms[|ms| - 1];
      assert ms == init + [last];
      SortSorts(init);
      InsertSorts(last, SortByVersion(init));
      InsertAdds(last, SortByVersion(init));
    }
  }

  ghost predicate ValidSet(ms: seq<Migration>)
  {
    && (forall i :: 0 <= i < |ms| ==> ms[i].version >= 1)
    && (forall i, j :: 0 <= i < j < |ms| ==> ms[i].version != ms[j].version)
  }

  method LoadMigrations(embedded: seq<Migration>) returns (r: Option<seq<Migration>>)
    ensures r.Some? <==> ValidSet(embedded)
    ensures r.Some? ==> StrictlySorted(r.value) && multiset(r.value) == multiset(embedded)
  {
    var ms := SortByVersion(embedded);
    SortSorts(embedded);
    SameValidity(embedded, ms);
    for i := 0 to |ms|
      invariant forall k :: 0 <= k < i ==> ms[k].version >= 1
      invariant forall k :: 0 < k < i ==> ms[k - 1].version != ms[k].version
    {
      if ms[i].version < 1 {
        return None;
      }
      if i > 0 && ms[i - 1].version == ms[i].version {
        return None;
      }
    }
    AdjacentDistinct(ms);
    r := Some(ms);
  }

  lemma {:induction false} AdjacentDistinct(ms: seq<Migration>)
    requires Sorted(ms) && forall k :: 0 < k < |ms| ==> ms[k - 1].version != ms[k].version
    ensures StrictlySorted(ms)
  {
    forall i, j | 0 <= i < j < |ms|
      ensures ms[i].version < ms[j].version
    {
      assert ms[j - 1].version < ms[j].version;
    }
  }

  /** Version counting carries over to a permutation. */
  lemma SameValidity(ms: seq<Migration>, other: seq<Migration>)
    requires multiset(ms) == multiset(other)
    ensures ValidSet(ms) <==> ValidSet(other)
  {
    if ValidSet(ms) {
      ValidityCarries(ms, other);
    }
    if ValidSet(other) {
      ValidityCarries(other, ms);
    }
  }

  lemma ValidityCarries(ms: seq<Migration>, other: seq<Migration>)
    requires multiset(ms) == multiset(other) && ValidSet(ms)
    ensures ValidSet(other)
  {
    forall x | x in other
      ensures x in ms && multiset(other)[x] <= 1
    {
      assert x in multiset(ms);
      AtMostOnce(ms, x);
    }
    forall i | 0 <= i < |other|
      ensures other[i].version >= 1
    {
      assert other[i] in other;
    }
    forall i, j | 0 <= i < j < |other|
      ensures other[i].version != other[j].version
    {
      assert other[i] in other && other[j] in other;
      if other[i] == other[j] {
        Twice(other, i, j);
      } else {
        var a :| 0 <= a < |ms| && ms[a] == other[i];
        var b :| 0 <= b < |ms| && ms[b] == other[j];
      }
    }
  }

  lemma {:induction false} AtMostOnce(ms: seq<Migration>, x: Migration)
    requires forall i, j :: 0 <= i < j < |ms| ==> ms[i].version != ms[j].version
    ensures multiset(ms)[x] <= 1
  {
    if ms != [] {
      var init, last := ms[..|ms| - 1], ms[|ms| - 1];
      assert ms == init + [last];
      AtMostOnce(init, x);
      assert x == last ==> x !in init;
    }
  }

  lemma Twice(ms: seq<Migration>, i: nat, j: nat)
    requires i < j < |ms| && ms[i] == ms[j]
    ensures multiset(ms)[ms[i]] >= 2
  {
    assert ms == ms[..i] + [ms[i]] + ms[i + 1..j] + [ms[j]] + ms[j + 1..];
  }

  // ---- verifying ----

  ghost predicate Accepts(ms: seq<Migration>, ledger: map<int, Applied>)
  {
    && (forall m :: m in ms && m.version in ledger ==> ledger[m.version].checksum == m.checksum)
    && (forall v :: v in ledger ==> exists m :: m in ms && m.version == v)
  }

  /** Refuse an edited migration, and a database migrated by a newer binary. */
  method VerifyChecksums(ms: seq<Migration>, ledger: map<int, Applied>) returns (ok: bool)
    ensures ok <==> Accepts(ms, ledger)
  {
    var known: set<int> := {};
    for i := 0 to |ms|
      invariant forall v :: v in known ==> exists m :: m in ms && m.version == v
      invariant forall k :: 0 <= k < i ==> ms[k].version in known
      invariant forall k :: 0 <= k < i && ms[k].version in ledger ==> ledger[ms[k].version].checksum == ms[k].checksum
    {
      assert ms[i] in ms;
      known := known + {ms[i].version};
      if ms[i].version in ledger && ledger[ms[i].version].checksum != ms[i].checksum {
        return false;
      }
    }
    assert forall m :: m in ms ==> m.version in known;
    ok := forall v :: v in ledger ==> v in known;
  }

  // ---- applying ----

  /** What becomes of one transaction: it commits, it is undone, or it commits unseen. */
  datatype Fate = Commits | RolledBack | CommitsUnseen

  class Database {
    var ledger: map<int, Applied>
    ghost var executed: seq<Migration>

    constructor ()
      ensures Value() == EMPTY
    {
      ledger, executed := map[], [];
    }

    ghost function Value(): State
      reads this
    {
      State(ledger, executed)
    }

    /** One migration and its ledger row in one transaction; a crash or a lost reply ends the run. */
    method ApplyOne(m: Migration, fate: Fate) returns (ok: bool)
      modifies this
      ensures ok <==> fate.Commits?
      ensures Value() == if fate.RolledBack? then old(Value()) else Apply(old(Value()), m)
    {
      if fate.RolledBack? {
        return false;
      }
      executed := executed + [m];
      ledger := ledger[m.version := Recorded(m)];
      ok := fate.Commits?;
    }

    /**
     A whole run under the lock; a binary without migrations is refused. `fates` says what becomes of
     each transaction in turn; the run ends at the first that does not simply commit.
     */
    method Migrate(ms: seq<Migration>, fates: nat -> Fate) returns (ok: bool, ghost done: nat)
      requires StrictlySorted(ms)
      modifies this
      ensures done <= |Pending(ms, old(ledger))|
      ensures Value() == ApplyAll(old(Value()), Pending(ms, old(ledger))[..done])
      ensures ok ==> done == |Pending(ms, old(ledger))|
      ensures ms == [] || !Accepts(ms, old(ledger)) ==> !ok && done == 0
      ensures ms != [] && Accepts(ms, old(ledger)) && (forall k :: fates(k).Commits?) ==> ok
    {
      hide ApplyAll, Pending, Accepts, Apply;
      done := 0;
      RunBegins(Value(), ms, ledger);
      if ms == [] {
        return false, 0;
      }
      ok := VerifyChecksums(ms, ledger);
      if !ok {
        return;
      }
      var applied := ledger;
      var pending := 0;
      for i := 0 to |ms|
        invariant done == pending == |Pending(ms[..i], applied)|
        invariant Value() == ApplyAll(old(Value()), Pending(ms[..i], applied))
      {
        RunContinues(old(Value()), ms, applied, i);
        if ms[i].version in applied {
          continue;
        }
        var committed := ApplyOne(ms[i], fates(pending));
        if !committed {
          if fates(pending).CommitsUnseen? {
            done := done + 1;
          }
          return false, done;
        }
        pending, done := pending + 1, done + 1;
      }
      RunContinues(old(Value()), ms, applied, |ms|);
    }
  }

  lemma RunBegins(s: State, ms: seq<Migration>, ledger: map<int, Applied>)
    ensures Pending(ms[..0], ledger) == [] && ApplyAll(s, []) == s && Pending(ms, ledger)[..0] == []
  {
  }

  /** One step of the run: what is pending so far is a prefix of all that is pending. */
  lemma RunContinues(s: State, ms: seq<Migration>, ledger: map<int, Applied>, i: nat)
    requires i <= |ms|
    ensures i == |ms| ==> Pending(ms[..i], ledger) == Pending(ms, ledger)
    ensures Pending(ms, ledger)[..|Pending(ms, ledger)|] == Pending(ms, ledger)
    ensures |Pending(ms[..i], ledger)| <= |Pending(ms, ledger)|
    ensures Pending(ms, ledger)[..|Pending(ms[..i], ledger)|] == Pending(ms[..i], ledger)
    ensures i < |ms| && ms[i].version in ledger ==> Pending(ms[..i + 1], ledger) == Pending(ms[..i], ledger)
    ensures i < |ms| && ms[i].version !in ledger ==>
      var k := |Pending(ms[..i], ledger)|;
      && |Pending(ms[..i + 1], ledger)| == k + 1 <= |Pending(ms, ledger)|
      && Pending(ms, ledger)[..k + 1] == Pending(ms[..i + 1], ledger)
      && ApplyAll(s, Pending(ms[..i + 1], ledger)) == Apply(ApplyAll(s, Pending(ms[..i], ledger)), ms[i])
  {
    hide Apply;
    PendingPrefix(ms, ledger, i);
    if i < |ms| {
      PendingPrefix(ms, ledger, i + 1);
      assert ms[..i + 1][..i] == ms[..i];
      if ms[i].version !in ledger {
        var before := Pending(ms[..i], ledger);
        assert Pending(ms[..i + 1], ledger) == before + [ms[i]];
        assert (before + [ms[i]])[..|before|] == before;
      }
    } else {
      assert ms[..i] == ms;
    }
  }

  lemma {:induction false} PendingPrefix(ms: seq<Migration>, ledger: map<int, Applied>, i: nat)
    requires i <= |ms|
    ensures Pending(ms[..i], ledger) <= Pending(ms, ledger)
    decreases |ms|
  {
    if i == |ms| {
      assert ms[..i] == ms;
    } else {
      var init := ms[..|ms| - 1];
      PendingPrefix(init, ledger, i);
      assert init[..i] == ms[..i];
    }
  }

  // ---- any number of runs ----

  /** What one run may leave behind: some of what was pending, in order, and nothing else. */
  ghost predicate RunStep(ms: seq<Migration>, before: State, after: State, done: nat)
  {
    done <= |Pending(ms, before.ledger)| && after == ApplyAll(before, Pending(ms, before.ledger)[..done])
  }

  /** Runs of one binary, one after the other under the lock. */
  ghost predicate Runs(ms: seq<Migration>, states: seq<State>, done: seq<nat>)
  {
    |states| == |done| + 1 && forall i :: 0 <= i < |done| ==> RunStep(ms, states[i], states[i + 1], done[i])
  }

  function LedgerOf(ms: seq<Migration>): map<int, Applied>
  {
    if ms == [] then map[] else LedgerOf(ms[..|ms| - 1])[ms[|ms| - 1].version := Recorded(ms[|ms| - 1])]
  }

  /** The ledger says exactly what was executed. */
  ghost predicate Faithful(s: State)
  {
    s.ledger == LedgerOf(s.executed)
  }

  lemma {:induction false} ApplyAllFaithful(s: State, ms: seq<Migration>)
    requires Faithful(s)
    ensures Faithful(ApplyAll(s, ms)) && ApplyAll(s, ms).executed == s.executed + ms
  {
    if ms != [] {
      hide Faithful;
      var init, last := ms[..|ms| - 1], ms[|ms| - 1];
      ApplyAllFaithful(s, init);
      ApplyFaithful(ApplyAll(s, init), last);
      SnocExecuted(s, init, last);
      assert ms == init + [last];
    }
  }

  lemma SnocExecuted(s: State, init: seq<Migration>, last: Migration)
    ensures s.executed + init + [last] == s.executed + (init + [last])
  {
  }

  lemma ApplyFaithful(s: State, m: Migration)
    requires Faithful(s)
    ensures Faithful(Apply(s, m))
  {
    assert (s.executed + [m])[..|s.executed|] == s.executed;
  }

  lemma {:induction false} LedgerVersions(ms: seq<Migration>)
    ensures forall v :: v in LedgerOf(ms) <==> exists k :: 0 <= k < |ms| && ms[k].version == v
  {
    if ms != [] {
      var init := ms[..|ms| - 1];
      LedgerVersions(init);
      forall v
        ensures v in LedgerOf(ms) <==> exists k :: 0 <= k < |ms| && ms[k].version == v
      {
        if v in LedgerOf(init) {
          var k :| 0 <= k < |init| && init[k].version == v;
          assert ms[k].version == v;
        }
        if k :| 0 <= k < |ms| && ms[k].version == v {
          assert k < |init| ==> init[k].version == v;
        }
      }
    }
  }

  lemma LaterNotRecorded(all: seq<Migration>, n: nat, i: nat)
    requires StrictlySorted(all) && n <= i < |all|
    ensures all[i].version !in LedgerOf(all[..n])
  {
    LedgerVersions(all[..n]);
    assert forall k :: 0 <= k < n ==> all[..n][k].version < all[i].version;
  }

  /** After a prefix of the list, what is pending is the rest of it. */
  lemma {:induction false} PendingAfterPrefix(all: seq<Migration>, n: nat, i: nat)
    requires StrictlySorted(all) && n <= i <= |all|
    ensures Pending(all[..i], LedgerOf(all[..n])) == all[n..i]
    ensures Pending(all[..n], LedgerOf(all[..n])) == []
    decreases i
  {
    hide LedgerOf, StrictlySorted;
    NothingPending(all[..n], n);
    assert all[..n][..n] == all[..n];
    if i > n {
      PendingAfterPrefix(all, n, i - 1);
      assert all[..i][..i - 1] == all[..i - 1];
      assert all[n..i] == all[n..i - 1] + [all[i - 1]];
      LaterNotRecorded(all, n, i - 1);
    }
  }

  lemma {:induction false} NothingPending(all: seq<Migration>, i: nat)
    requires i <= |all|
    ensures Pending(all[..i], LedgerOf(all)) == []
  {
    LedgerVersions(all);
    if i > 0 {
      NothingPending(all, i - 1);
      assert all[..i][..i - 1] == all[..i - 1];
      assert all[i - 1].version in LedgerOf(all);
    }
  }

  ghost predicate AtPrefix(ms: seq<Migration>, s: State, n: nat)
  {
    n <= |ms| && s.executed == ms[..n] && s.ledger == LedgerOf(ms[..n])
  }

  lemma RunKeepsPrefix(ms: seq<Migration>, before: State, after: State, done: nat, n: nat)
    requires StrictlySorted(ms) && AtPrefix(ms, before, n) && RunStep(ms, before, after, done)
    ensures AtPrefix(ms, after, n + done)
    ensures |Pending(ms, before.ledger)| == |ms| - n
  {
    hide LedgerOf, Pending, ApplyAll, StrictlySorted;
    assert ms[..|ms|] == ms && ms[n..|ms|] == ms[n..];
    PendingAfterPrefix(ms, n, |ms|);
    ApplyAllFaithful(before, ms[n..][..done]);
    assert ms[..n] + ms[n..][..done] == ms[..n + done];
  }

  function Total(done: seq<nat>): nat
  {
    if done == [] then 0 else Total(done[..|done| - 1]) + done[|done| - 1]
  }

  /**
   From an empty database, after any runs of one binary however they crashed or failed, the executed
   migrations are a prefix of the sorted list, each once, and the ledger says exactly that.
   */
  lemma {:induction false} RunsKeepPrefix(ms: seq<Migration>, states: seq<State>, done: seq<nat>)
    requires StrictlySorted(ms) && Runs(ms, states, done) && states[0] == EMPTY
    ensures AtPrefix(ms, states[|done|], Total(done))
    ensures Faithful(states[|done|])
  {
    if done == [] {
      assert ms[..0] == [];
    } else {
      var last := |done| - 1;
      assert Runs(ms, states[..|states| - 1], done[..last]);
      RunsKeepPrefix(ms, states[..|states| - 1], done[..last]);
      assert RunStep(ms, states[last], states[last + 1], done[last]);
      RunKeepsPrefix(ms, states[last], states[last + 1], done[last], Total(done[..last]));
    }
  }

  /**
   The first run to finish leaves what one uninterrupted run of an empty database would, and every
   later run executes nothing.
   */
  lemma FirstSuccessCompletes(ms: seq<Migration>, states: seq<State>, done: seq<nat>, after: State)
    requires StrictlySorted(ms) && Runs(ms, states, done) && states[0] == EMPTY
    requires RunStep(ms, states[|done|], after, |Pending(ms, states[|done|].ledger)|)
    ensures after == ApplyAll(EMPTY, ms) && after.executed == ms
    ensures Pending(ms, after.ledger) == []
    ensures forall later, k :: RunStep(ms, after, later, k) ==> later == after
  {
    hide RunStep, LedgerOf, Pending, ApplyAll, Faithful, StrictlySorted;
    var s := states[|done|];
    RunsKeepPrefix(ms, states, done);
    RunKeepsPrefix(ms, s, after, |Pending(ms, s.ledger)|, Total(done));
    assert ms[..|ms|] == ms;
    FromEmpty(ms);
    NothingPending(ms, |ms|);
    NothingLeftNothingDone(ms, after);
  }

  lemma NothingLeftNothingDone(ms: seq<Migration>, s: State)
    requires Pending(ms, s.ledger) == []
    ensures forall later, k :: RunStep(ms, s, later, k) ==> later == s
  {
    assert forall k :: 0 <= k <= |Pending(ms, s.ledger)| ==> Pending(ms, s.ledger)[..k] == [];
    assert ApplyAll(s, []) == s;
  }

  lemma FromEmpty(ms: seq<Migration>)
    ensures ApplyAll(EMPTY, ms) == State(LedgerOf(ms), ms)
  {
    ApplyAllFaithful(EMPTY, ms);
    assert [] + ms == ms;
  }

  /** Any binary's runs keep the ledger faithful, from any faithful database. */
  lemma AnyBinaryKeepsFaithful(ms: seq<Migration>, before: State, after: State, done: nat)
    requires Faithful(before) && RunStep(ms, before, after, done)
    ensures Faithful(after) && before.executed <= after.executed
  {
    ApplyAllFaithful(before, Pending(ms, before.ledger)[..done]);
  }

  /** A binary is never refused by what its own runs left: only faults can stop it. */
  lemma PrefixAccepted(ms: seq<Migration>, s: State, n: nat)
    requires StrictlySorted(ms) && AtPrefix(ms, s, n)
    ensures Accepts(ms, s.ledger)
  {
    LedgerVersions(ms[..n]);
    forall m | m in ms && m.version in s.ledger
      ensures s.ledger[m.version].checksum == m.checksum
    {
      var i :| 0 <= i < |ms| && ms[i] == m;
      var k :| 0 <= k < n && ms[..n][k].version == m.version;
      assert i == k;
      LedgerRecords(ms[..n], k);
    }
    forall v | v in s.ledger
      ensures exists m :: m in ms && m.version == v
    {
      var k :| 0 <= k < n && ms[..n][k].version == v;
      assert ms[k] in ms;
    }
  }

  lemma {:induction false} LedgerRecords(ms: seq<Migration>, k: nat)
    requires StrictlySorted(ms) && k < |ms|
    ensures ms[k].version in LedgerOf(ms) && LedgerOf(ms)[ms[k].version] == Recorded(ms[k])
  {
    if k < |ms| - 1 {
      LedgerRecords(ms[..|ms| - 1], k);
    }
  }

  // ---- binaries of different releases ----

  /** A run of the binary that has the first n migrations: refused without effect, or a run like any other. */
  ghost predicate ReleaseStep(all: seq<Migration>, n: nat, before: State, after: State, done: nat)
    requires n <= |all|
  {
    if n == 0 || !Accepts(all[..n], before.ledger) then after == before && done == 0
    else RunStep(all[..n], before, after, done)
  }

  /** Runs of binaries of any releases, in any order, under the lock. */
  ghost predicate ReleaseRuns(all: seq<Migration>, releases: seq<nat>, states: seq<State>, done: seq<nat>)
  {
    && |releases| == |done| && |states| == |done| + 1
    && forall i :: 0 <= i < |done| ==>
         releases[i] <= |all| && ReleaseStep(all, releases[i], states[i], states[i + 1], done[i])
  }

  /** A release accepts the database exactly until a newer one has gone past it. */
  lemma ReleaseAccepts(all: seq<Migration>, s: State, k: nat, n: nat)
    requires StrictlySorted(all) && AtPrefix(all, s, k) && n <= |all|
    ensures Accepts(all[..n], s.ledger) <==> k <= n
  {
    if k <= n {
      assert all[..n][..k] == all[..k];
      hide LedgerOf;
      PrefixAccepted(all[..n], s, k);
    } else {
      LedgerVersions(all[..k]);
      assert all[..k][n].version == all[n].version && all[n].version in s.ledger;
      forall m | m in all[..n]
        ensures m.version != all[n].version
      {
        var i :| 0 <= i < n && all[i] == m;
      }
    }
  }

  lemma ReleaseKeepsPrefix(all: seq<Migration>, n: nat, before: State, after: State, done: nat, k: nat)
    requires StrictlySorted(all) && n <= |all| && AtPrefix(all, before, k) && ReleaseStep(all, n, before, after, done)
    ensures AtPrefix(all, after, k + done)
    ensures k > n ==> after == before
  {
    hide Accepts, LedgerOf, RunStep;
    ReleaseAccepts(all, before, k, n);
    if n != 0 && k <= n {
      assert all[..n][..k] == all[..k];
      RunKeepsPrefix(all[..n], before, after, done, k);
      assert all[..n][..k + done] == all[..k + done];
    }
  }

  /**
   From an empty database, whatever releases run in whatever order and however they crash: the executed
   migrations are a prefix of the longest list, each once, and the ledger says exactly that. Another
   release is then accepted exactly when its list reaches that far, and otherwise changes nothing.
   */
  lemma {:induction false} ReleasesKeepPrefix(all: seq<Migration>, releases: seq<nat>, states: seq<State>,
                                              done: seq<nat>)
    requires StrictlySorted(all) && ReleaseRuns(all, releases, states, done) && states[0] == EMPTY
    ensures AtPrefix(all, states[|done|], Total(done))
    ensures forall n :: 0 <= n <= |all| ==> (Accepts(all[..n], states[|done|].ledger) <==> Total(done) <= n)
    ensures forall n, after, more ::
      0 <= n < Total(done) <= |all| && ReleaseStep(all, n, states[|done|], after, more) ==> after == states[|done|]
  {
    hide Accepts, LedgerOf, ReleaseStep;
    if done == [] {
      EmptyPrefix(all);
    } else {
      var last := |done| - 1;
      assert ReleaseRuns(all, releases[..last], states[..|states| - 1], done[..last]);
      ReleasesKeepPrefix(all, releases[..last], states[..|states| - 1], done[..last]);
      ReleaseKeepsPrefix(all, releases[last], states[last], states[last + 1], done[last], Total(done[..last]));
    }
    forall n | 0 <= n <= |all|
      ensures Accepts(all[..n], states[|done|].ledger) <==> Total(done) <= n
    {
      ReleaseAccepts(all, states[|done|], Total(done), n);
    }
    forall n, after, more | 0 <= n < Total(done) <= |all| && ReleaseStep(all, n, states[|done|], after, more)
      ensures after == states[|done|]
    {
      ReleaseKeepsPrefix(all, n, states[|done|], after, more, Total(done));
    }
  }

  lemma EmptyPrefix(all: seq<Migration>)
    ensures AtPrefix(all, EMPTY, 0)
  {
    assert all[..0] == [];
  }

  /** The ledger has the name and checksum of each migration executed, under its version, and nothing else. */
  lemma LedgerExactly(ms: seq<Migration>, s: State, n: nat)
    requires StrictlySorted(ms) && AtPrefix(ms, s, n)
    ensures forall k :: 0 <= k < n ==>
      ms[k].version in s.ledger && s.ledger[ms[k].version] == Applied(ms[k].name, ms[k].checksum)
    ensures forall v :: v in s.ledger ==> exists k :: 0 <= k < n && ms[k].version == v
  {
    hide LedgerOf;
    LedgerVersions(ms[..n]);
    forall k | 0 <= k < n
      ensures ms[k].version in s.ledger && s.ledger[ms[k].version] == Applied(ms[k].name, ms[k].checksum)
    {
      assert ms[..n][k] == ms[k];
      LedgerRecords(ms[..n], k);
    }
    forall v | v in s.ledger
      ensures exists k :: 0 <= k < n && ms[k].version == v
    {
      var k :| 0 <= k < n && ms[..n][k].version == v;
      assert ms[k].version == v;
    }
  }
}
