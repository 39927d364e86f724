/** The append-only change log of each repository, and the sync pass that reconciles it with a snapshot. */
module ChangeLog {
  import opened Bytes

  /** Object IDs compare by value; 0 is the zero ID, which names no object. */
  type ObjectID = nat

  const ZERO: ObjectID := 0

  datatype Entry = Entry(repo: string, version: nat, id: ObjectID, exist: bool)

  // ---------------------------------------------------------------------------------------
  // Queries over the table, as the database answers them
  // ---------------------------------------------------------------------------------------

  /** MAX(version) over the rows of a repository, 0 when there is none. */
  function MaxVersion(rows: seq<Entry>, repo: string): nat {
    if rows == [] then 0
    else
      var rest, last := MaxVersion(rows[..|rows| - 1], repo), rows[|rows| - 1];
      if last.repo == repo && last.version > rest then last.version else rest
  }

  /** The row of a repository and object with the highest version. */
  function LatestRow(rows: seq<Entry>, repo: string, x: ObjectID): (r: Option<Entry>)
    ensures r.Some? ==> r.value in rows && r.value.repo == repo && r.value.id == x
    ensures forall e :: e in rows && e.repo == repo && e.id == x ==> r.Some? && e.version <= r.value.version
  {
    if rows == [] then None
    else
      var rest, last := LatestRow(rows[..|rows| - 1], repo, x), rows[|rows| - 1];
      assert rows == rows[..|rows| - 1] + [last];
      if last.repo == repo && last.id == x && (rest.None? || last.version > rest.value.version)
      then Some(last) else rest
  }

  predicate LatestExists(rows: seq<Entry>, repo: string, x: ObjectID) {
    LatestRow(rows, repo, x).Some? && LatestRow(rows, repo, x).value.exist
  }

  /** The oldest row of a repository above a version. */
  function NextChange(rows: seq<Entry>, repo: string, after: nat): Option<Entry> {
    if rows == [] then None
    else
      var rest, last := NextChange(rows[..|rows| - 1], repo, after), rows[|rows| - 1];
      if last.repo == repo && last.version > after && (rest.None? || last.version < rest.value.version)
      then Some(last) else rest
  }

  /** Objects of the rows among `some` that are the latest of their object in `all` and exist. */
  function ExistingAmong(all: seq<Entry>, repo: string, some: seq<Entry>): (r: seq<ObjectID>)
    ensures forall x :: x in r <==>
      exists e :: e in some && e.repo == repo && e.exist && LatestRow(all, repo, e.id) == Some(e) && e.id == x
  {
    if some == [] then []
    else
      var rest, last := ExistingAmong(all, repo, some[..|some| - 1]), some[|some| - 1];
      assert some == some[..|some| - 1] + [last];
      if last.repo == repo && last.exist && LatestRow(all, repo, last.id) == Some(last)
      then rest + [last.id] else rest
  }

  function LatestExistingObjectIDs(rows: seq<Entry>, repo: string): seq<ObjectID> {
    ExistingAmong(rows, repo, rows)
  }

  // ---------------------------------------------------------------------------------------
  // Logs
  // ---------------------------------------------------------------------------------------

  /** The entries of one repository, oldest first. */
  function Log(rows: seq<Entry>, repo: string): seq<Entry> {
    if rows == [] then []
    else
      var rest, last := Log(rows[..|rows| - 1], repo), rows[|rows| - 1];
      if last.repo == repo then rest + [last] else rest
  }

  /** The objects present after all changes of a log. */
  function Replay(log: seq<Entry>): set<ObjectID> {
    if log == [] then {}
    else
      var rest, last := Replay(log[..|log| - 1]), log[|log| - 1];
      if last.exist then rest + {last.id} else rest - {last.id}
  }

  /** The add and remove marks of one object, oldest first. */
  function History(log: seq<Entry>, x: ObjectID): seq<bool> {
    if log == [] then []
    else
      var rest, last := History(log[..|log| - 1], x), log[|log| - 1];
      if last.id == x then rest + [last.exist] else rest
  }

  ghost predicate VersionsFromOne(log: seq<Entry>) {
    forall i :: 0 <= i < |log| ==> log[i].version == i + 1
  }

  /** Add, remove, add, ... */
  ghost predicate Alternates(marks: seq<bool>) {
    forall i :: 0 <= i < |marks| ==> marks[i] == (i % 2 == 0)
  }

  ghost predicate WellFormedLog(log: seq<Entry>) {
    VersionsFromOne(log) && forall x :: Alternates(History(log, x))
  }

  ghost predicate WellFormed(rows: seq<Entry>) {
    forall repo :: WellFormedLog(Log(rows, repo))
  }

  lemma LogAppend(rows: seq<Entry>, e: Entry, repo: string)
    ensures Log(rows + [e], repo) == if e.repo == repo then Log(rows, repo) + [e] else Log(rows, repo)
  {
    assert (rows + [e])[..|rows|] == rows;
  }

  lemma ReplayAppend(log: seq<Entry>, e: Entry)
    ensures Replay(log + [e]) == if e.exist then Replay(log) + {e.id} else Replay(log) - {e.id}
  {
    assert (log + [e])[..|log|] == log;
  }

  lemma HistoryAppend(log: seq<Entry>, e: Entry, x: ObjectID)
    ensures History(log + [e], x) == if e.id == x then History(log, x) + [e.exist] else History(log, x)
  {
    assert (log + [e])[..|log|] == log;
  }

  /** An object is present exactly when its marks end in an add. */
  lemma {:induction false} ReplayIsLastMark(log: seq<Entry>, x: ObjectID)
    ensures x in Replay(log) <==> History(log, x) != [] && History(log, x)[|History(log, x)| - 1]
  {
    if log != [] {
      ReplayIsLastMark(log[..|log| - 1], x);
    }
  }

  lemma {:induction false} LogOrigin(rows: seq<Entry>, repo: string, e: Entry)
    ensures e in Log(rows, repo) <==> e in rows && e.repo == repo
  {
    if rows != [] {
      assert rows == rows[..|rows| - 1] + [rows[|rows| - 1]];
      LogOrigin(rows[..|rows| - 1], repo, e);
    }
  }

  lemma VersionsPrefix(rows: seq<Entry>, repo: string)
    requires rows != [] && VersionsFromOne(Log(rows, repo))
    ensures VersionsFromOne(Log(rows[..|rows| - 1], repo))
  {
    var rest, last := rows[..|rows| - 1], rows[|rows| - 1];
    assert rows == rest + [last];
    LogAppend(rest, last, repo);
    forall i | 0 <= i < |Log(rest, repo)| ensures Log(rest, repo)[i].version == i + 1 {
      assert Log(rows, repo)[i] == Log(rest, repo)[i];
    }
  }

  /** The highest version is the length of the log. */
  lemma {:induction false} MaxVersionIsLength(rows: seq<Entry>, repo: string)
    requires VersionsFromOne(Log(rows, repo))
    ensures MaxVersion(rows, repo) == |Log(rows, repo)|
  {
    if rows != [] {
      VersionsPrefix(rows, repo);
      MaxVersionIsLength(rows[..|rows| - 1], repo);
      var log := Log(rows, repo);
      assert log != [] ==> log[|log| - 1].version == |log|;
    }
  }

  /** The row with the highest version for an object carries its last mark. */
  lemma {:induction false} LatestIsReplay(rows: seq<Entry>, repo: string, x: ObjectID)
    requires VersionsFromOne(Log(rows, repo))
    ensures LatestExists(rows, repo, x) <==> x in Replay(Log(rows, repo))
  {
    if rows != [] {
      var rest, last := rows[..|rows| - 1], rows[|rows| - 1];
      VersionsPrefix(rows, repo);
      LatestIsReplay(rest, repo, x);
      if last.repo == repo {
        ReplayAppend(Log(rest, repo), last);
        var log := Log(rows, repo);
        assert log[|log| - 1].version == |log|;
        MaxVersionIsLength(rest, repo);
        var prev := LatestRow(rest, repo, x);
        if last.id == x && prev.Some? {
          LogOrigin(rest, repo, prev.value);
          var k :| 0 <= k < |Log(rest, repo)| && Log(rest, repo)[k] == prev.value;
        }
      }
    }
  }

  lemma LatestExistingIsReplay(rows: seq<Entry>, repo: string)
    requires VersionsFromOne(Log(rows, repo))
    ensures forall x :: x in LatestExistingObjectIDs(rows, repo) <==> x in Replay(Log(rows, repo))
  {
    forall x ensures x in LatestExistingObjectIDs(rows, repo) <==> LatestExists(rows, repo, x) {
    }
    forall x ensures LatestExists(rows, repo, x) <==> x in Replay(Log(rows, repo)) {
      LatestIsReplay(rows, repo, x);
    }
  }

  /** The next change after a version is the log entry at that position. */
  lemma {:induction false} NextChangeIsEntry(rows: seq<Entry>, repo: string, after: nat)
    requires VersionsFromOne(Log(rows, repo))
    ensures NextChange(rows, repo, after) ==
      if after < |Log(rows, repo)| then Some(Log(rows, repo)[after]) else None
  {
    if rows != [] {
      VersionsPrefix(rows, repo);
      NextChangeIsEntry(rows[..|rows| - 1], repo, after);
      var log := Log(rows, repo);
      assert log != [] ==> log[|log| - 1].version == |log|;
    }
  }

  // ---------------------------------------------------------------------------------------
  // The two writes
  // ---------------------------------------------------------------------------------------

  function Appended(rows: seq<Entry>, repo: string, x: ObjectID, exist: bool): seq<Entry> {
    rows + [Entry(repo, MaxVersion(rows, repo) + 1, x, exist)]
  }

  function AfterAdd(rows: seq<Entry>, repo: string, x: ObjectID): seq<Entry> {
    if x == ZERO || LatestExists(rows, repo, x) then rows else Appended(rows, repo, x, true)
  }

  function AfterRemove(rows: seq<Entry>, repo: string, x: ObjectID): seq<Entry> {
    if LatestExists(rows, repo, x) then Appended(rows, repo, x, false) else rows
  }

  /** A flip of its object's presence continues the alternation of every object. */
  lemma FlipKeepsHistory(log: seq<Entry>, e: Entry, y: ObjectID)
    requires Alternates(History(log, y)) && (e.exist <==> e.id !in Replay(log))
    ensures Alternates(History(log + [e], y))
  {
    HistoryAppend(log, e, y);
    if e.id == y {
      ReplayIsLastMark(log, y);
      NextMark(History(log, y), e.exist);
    }
  }

  lemma NextMark(marks: seq<bool>, mark: bool)
    requires Alternates(marks) && (mark <==> marks == [] || !marks[|marks| - 1])
    ensures Alternates(marks + [mark])
  {
  }

  lemma NextVersion(log: seq<Entry>, e: Entry)
    requires VersionsFromOne(log) && e.version == |log| + 1
    ensures VersionsFromOne(log + [e])
  {
  }

  /** An entry with the next version that flips its object's presence keeps a log well formed. */
  lemma FlipKeepsLog(log: seq<Entry>, e: Entry)
    requires WellFormedLog(log)
    requires e.version == |log| + 1 && (e.exist <==> e.id !in Replay(log))
    ensures WellFormedLog(log + [e])
  {
    NextVersion(log, e);
    forall y ensures Alternates(History(log + [e], y)) {
      assert Alternates(History(log, y));
      FlipKeepsHistory(log, e, y);
    }
  }

  /** The log of each repository after a change is recorded. */
  lemma AppendedLog(rows: seq<Entry>, repo: string, x: ObjectID, exist: bool, other: string)
    requires VersionsFromOne(Log(rows, repo))
    ensures Log(Appended(rows, repo, x, exist), other) ==
      if other == repo then Log(rows, repo) + [Entry(repo, |Log(rows, repo)| + 1, x, exist)] else Log(rows, other)
  {
    MaxVersionIsLength(rows, repo);
    LogAppend(rows, Entry(repo, MaxVersion(rows, repo) + 1, x, exist), other);
  }

  lemma AppendKeepsLog(rows: seq<Entry>, repo: string, x: ObjectID, exist: bool, other: string)
    requires WellFormedLog(Log(rows, repo)) && WellFormedLog(Log(rows, other))
    requires exist <==> x !in Replay(Log(rows, repo))
    ensures WellFormedLog(Log(Appended(rows, repo, x, exist), other))
  {
    AppendedLog(rows, repo, x, exist, other);
    if other == repo {
      FlipKeepsLog(Log(rows, repo), Entry(repo, |Log(rows, repo)| + 1, x, exist));
    }
  }

  /** Recording a change that flips an object's presence keeps every log well formed. */
  lemma AppendKeeps(rows: seq<Entry>, repo: string, x: ObjectID, exist: bool)
    requires WellFormed(rows) && (exist <==> x !in Replay(Log(rows, repo)))
    ensures WellFormed(Appended(rows, repo, x, exist))
    ensures forall other :: other != repo ==> Log(Appended(rows, repo, x, exist), other) == Log(rows, other)
    ensures Grown(Log(rows, repo), Log(Appended(rows, repo, x, exist), repo), x, exist)
  {
    assert WellFormedLog(Log(rows, repo));
    forall other ensures WellFormedLog(Log(Appended(rows, repo, x, exist), other)) {
      assert WellFormedLog(Log(rows, other));
      AppendKeepsLog(rows, repo, x, exist, other);
    }
    forall other | other != repo ensures Log(Appended(rows, repo, x, exist), other) == Log(rows, other) {
      AppendedLog(rows, repo, x, exist, other);
    }
    AppendedLog(rows, repo, x, exist, repo);
    ReplayAppend(Log(rows, repo), Entry(repo, |Log(rows, repo)| + 1, x, exist));
  }

  /** A log one entry longer, and what that entry did to the replayed set. */
  ghost predicate Grown(log: seq<Entry>, log': seq<Entry>, x: ObjectID, exist: bool) {
    && log <= log' && |log'| == |log| + 1
    && Replay(log') == if exist then Replay(log) + {x} else Replay(log) - {x}
  }

  lemma WriteKeeps(rows: seq<Entry>, repo: string, x: ObjectID)
    requires WellFormed(rows)
    ensures WellFormed(AfterAdd(rows, repo, x)) && WellFormed(AfterRemove(rows, repo, x))
    ensures LatestExists(rows, repo, x) <==> x in Replay(Log(rows, repo))
  {
    assert WellFormedLog(Log(rows, repo));
    LatestIsReplay(rows, repo, x);
    if x in Replay(Log(rows, repo)) {
      AppendKeeps(rows, repo, x, false);
    } else {
      AppendKeeps(rows, repo, x, true);
    }
  }

  datatype Op = Add(repo: string, x: ObjectID) | Remove(repo: string, x: ObjectID)

  function Apply(rows: seq<Entry>, ops: seq<Op>): seq<Entry> {
    if ops == [] then rows else ApplyOne(Apply(rows, ops[..|ops| - 1]), ops[|ops| - 1])
  }

  function ApplyOne(rows: seq<Entry>, op: Op): seq<Entry> {
    match op
    case Add(repo, x) => AfterAdd(rows, repo, x)
    case Remove(repo, x) => AfterRemove(rows, repo, x)
  }

  /** A write changes at most the log of its repository, by one entry that flips its object. */
  lemma ApplyOneKeeps(rows: seq<Entry>, op: Op)
    requires WellFormed(rows)
    ensures
      var rows' := ApplyOne(rows, op);
      WellFormed(rows') && rows <= rows' && forall repo :: Followed(rows, rows', op, repo)
  {
    WriteKeeps(rows, op.repo, op.x);
    var rows' := ApplyOne(rows, op);
    if rows' != rows {
      AppendKeeps(rows, op.repo, op.x, op.Add?);
    }
  }

  /** A repository's log after a write: the same, or grown by the write's entry for a nonzero or present object. */
  ghost predicate Followed(rows: seq<Entry>, rows': seq<Entry>, op: Op, repo: string) {
    || Log(rows', repo) == Log(rows, repo)
    || (
      && repo == op.repo && Grown(Log(rows, repo), Log(rows', repo), op.x, op.Add?)
      && (op.x == ZERO ==> ZERO in Replay(Log(rows, repo))))
  }

  /**
   In every reachable table a repository's versions are exactly 1..n, each object's entries alternate
   starting with an add, and the zero ID is never present.
   */
  lemma {:induction false} ReachableLogs(ops: seq<Op>)
    ensures WellFormed(Apply([], ops))
    ensures forall repo :: ZERO !in Replay(Log(Apply([], ops), repo))
  {
    if ops != [] {
      var rows, op := Apply([], ops[..|ops| - 1]), ops[|ops| - 1];
      ReachableLogs(ops[..|ops| - 1]);
      ApplyOneKeeps(rows, op);
      forall repo ensures ZERO !in Replay(Log(ApplyOne(rows, op), repo)) {
        assert Followed(rows, ApplyOne(rows, op), op, repo) && ZERO !in Replay(Log(rows, repo));
      }
    }
  }

  // ---------------------------------------------------------------------------------------
  // The module: its table and its broadcasts
  // ---------------------------------------------------------------------------------------

  datatype WriteError = ZeroObjectID | ObjectAlreadyAdded | ObjectNotPresent | DatabaseError

  class Index {
    var rows: seq<Entry>
    /** How often waiting subscribers were woken. */
    var broadcasts: nat
    /** Objects whose rows the database fails to write. */
    const unwritable: set<ObjectID>

    constructor (unwritable: set<ObjectID>)
      ensures rows == [] && broadcasts == 0 && this.unwritable == unwritable
    {
      rows, broadcasts := [], 0;
      this.unwritable := unwritable;
    }

    ghost function Present(repo: string): set<ObjectID>
      reads this
    {
      Replay(Log(rows, repo))
    }

    method AddToRepo(repo: string, x: ObjectID) returns (err: Option<WriteError>)
      modifies this`rows
      ensures err == Some(ZeroObjectID) <==> x == ZERO
      ensures err == Some(ObjectAlreadyAdded) <==> x != ZERO && LatestExists(old(rows), repo, x)
      ensures err.None? ==> x !in unwritable && rows == AfterAdd(old(rows), repo, x) != old(rows)
      ensures err.Some? ==> rows == old(rows)
      ensures err.Some? && x !in unwritable ==> AfterAdd(old(rows), repo, x) == old(rows)
    {
      if x == ZERO {
        return Some(ZeroObjectID);
      }
      if LatestExists(rows, repo, x) {
        return Some(ObjectAlreadyAdded);
      }
      if x in unwritable {
        return Some(DatabaseError);
      }
      rows := rows + [Entry(repo, MaxVersion(rows, repo) + 1, x, true)];
      err := None;
    }

    method RemoveFromRepo(repo: string, x: ObjectID) returns (err: Option<WriteError>)
      modifies this`rows
      ensures err == Some(ObjectNotPresent) <==> !LatestExists(old(rows), repo, x)
      ensures err.None? ==> x !in unwritable && rows == AfterRemove(old(rows), repo, x) != old(rows)
      ensures err.Some? ==> rows == old(rows)
      ensures err.Some? && x !in unwritable ==> AfterRemove(old(rows), repo, x) == old(rows)
    {
      if !LatestExists(rows, repo, x) {
        return Some(ObjectNotPresent);
      }
      if x in unwritable {
        return Some(DatabaseError);
      }
      rows := rows + [Entry(repo, MaxVersion(rows, repo) + 1, x, false)];
      err := None;
    }

    method FindExcessObjectIDs(repo: string, snapshot: seq<ObjectID>) returns (excess: seq<ObjectID>)
      requires WellFormed(rows)
      ensures forall x :: x in excess <==> x in Present(repo) && x !in snapshot
    {
      assert WellFormedLog(Log(rows, repo));
      LatestExistingIsReplay(rows, repo);
      var existing := LatestExistingObjectIDs(rows, repo);
      var keep: set<ObjectID> := {};
      for i := 0 to |snapshot|
        invariant forall x :: x in keep <==> x in snapshot[..i]
      {
        TakeOneMore(snapshot, i);
        keep := keep + {snapshot[i]};
      }
      excess := [];
      for i := 0 to |existing|
        invariant forall x :: x in excess <==> x in existing[..i] && x !in snapshot
      {
        TakeOneMore(existing, i);
        if existing[i] !in keep {
          excess := excess + [existing[i]];
        }
      }
    }

    method FindMissingObjectIDs(repo: string, snapshot: seq<ObjectID>) returns (missing: seq<ObjectID>)
      requires WellFormed(rows)
      ensures forall x :: x in missing <==> x in snapshot && x !in Present(repo)
    {
      assert WellFormedLog(Log(rows, repo));
      LatestExistingIsReplay(rows, repo);
      var existing := LatestExistingObjectIDs(rows, repo);
      var present: set<ObjectID> := {};
      for i := 0 to |existing|
        invariant forall x :: x in present <==> x in existing[..i]
      {
        TakeOneMore(existing, i);
        present := present + {existing[i]};
      }
      missing := [];
      for i := 0 to |snapshot|
        invariant forall x :: x in missing <==> x in snapshot[..i] && x !in existing
      {
        TakeOneMore(snapshot, i);
        if snapshot[i] !in present {
          missing := missing + [snapshot[i]];
        }
      }
    }

    /** Nothing but the log of `repo` has changed since `rows0`, it has only grown, and each growth was broadcast. */
    ghost predicate GrewFrom(rows0: seq<Entry>, broadcasts0: nat, repo: string)
      reads this
    {
      && WellFormed(rows)
      && Log(rows0, repo) <= Log(rows, repo)
      && (forall other :: other != repo ==> Log(rows, other) == Log(rows0, other))
      && broadcasts - broadcasts0 == |Log(rows, repo)| - |Log(rows0, repo)|
    }

    /** One removal and, when it was recorded, its broadcast. */
    method RemoveOne(repo: string, x: ObjectID)
      requires WellFormed(rows)
      modifies this
      ensures GrewFrom(old(rows), old(broadcasts), repo)
      ensures Present(repo) == if x in unwritable then old(Present(repo)) else old(Present(repo)) - {x}
      ensures |Log(rows, repo)| == |Log(old(rows), repo)| + if Present(repo) == old(Present(repo)) then 0 else 1
    {
      WriteKeeps(rows, repo, x);
      ghost var before := rows;
      var err := RemoveFromRepo(repo, x);
      if err.None? {
        AppendKeeps(before, repo, x, false);
        broadcasts := broadcasts + 1;
      }
    }

    /** One addition and, when it was recorded, its broadcast. */
    method AddOne(repo: string, x: ObjectID)
      requires WellFormed(rows)
      modifies this
      ensures GrewFrom(old(rows), old(broadcasts), repo)
      ensures Present(repo) == if x in unwritable || x == ZERO then old(Present(repo)) else old(Present(repo)) + {x}
      ensures |Log(rows, repo)| == |Log(old(rows), repo)| + if Present(repo) == old(Present(repo)) then 0 else 1
    {
      WriteKeeps(rows, repo, x);
      ghost var before := rows;
      var err := AddToRepo(repo, x);
      if err.None? {
        AppendKeeps(before, repo, x, true);
        broadcasts := broadcasts + 1;
      }
    }

    /** Removes each listed object that is present and writable, one log entry each. */
    method RemoveAll(repo: string, excess: seq<ObjectID>)
      requires WellFormed(rows)
      modifies this
      ensures GrewFrom(old(rows), old(broadcasts), repo)
      ensures Present(repo) == old(Present(repo)) - Writable(excess, unwritable)
      ensures |Log(rows, repo)| == |Log(old(rows), repo)| + |old(Present(repo)) - Present(repo)|
    {
      ghost var start, rows0, n0 := Present(repo), rows, broadcasts;
      for i := 0 to |excess|
        invariant GrewFrom(rows0, n0, repo)
        invariant Present(repo) == start - Writable(excess[..i], unwritable)
        invariant |Log(rows, repo)| == |Log(rows0, repo)| + |start - Present(repo)|
      {
        RemovedCount(start, excess, i, unwritable);
        RemoveOne(repo, excess[i]);
      }
      assert excess[..|excess|] == excess;
    }

    /** Adds each listed object that is nonzero, absent and writable, one log entry each. */
    method AddAll(repo: string, missing: seq<ObjectID>)
      requires WellFormed(rows)
      modifies this
      ensures GrewFrom(old(rows), old(broadcasts), repo)
      ensures Present(repo) == old(Present(repo)) + (Writable(missing, unwritable) - {ZERO})
      ensures |Log(rows, repo)| == |Log(old(rows), repo)| + |Present(repo) - old(Present(repo))|
    {
      ghost var start, rows0, n0 := Present(repo), rows, broadcasts;
      for i := 0 to |missing|
        invariant GrewFrom(rows0, n0, repo)
        invariant Present(repo) == start + (Writable(missing[..i], unwritable) - {ZERO})
        invariant |Log(rows, repo)| == |Log(rows0, repo)| + |Present(repo) - start|
      {
        AddedCount(start, missing, i, unwritable);
        AddOne(repo, missing[i]);
      }
      assert missing[..|missing|] == missing;
    }

    /**
     The reconciliation of a sync pass. Where writes succeed the log ends up replaying to the nonzero
     snapshot, and it grows by exactly the objects whose presence changed.
     */
    method SyncRepo(repo: string, snapshot: seq<ObjectID>)
      requires WellFormed(rows)
      modifies this
      ensures GrewFrom(old(rows), old(broadcasts), repo)
      ensures forall x :: x in Present(repo) <==>
        if x in unwritable then x in old(Present(repo))
        else x in snapshot && (x != ZERO || x in old(Present(repo)))
      ensures |Log(rows, repo)| == |Log(old(rows), repo)| +
        |(old(Present(repo)) - Present(repo)) + (Present(repo) - old(Present(repo)))|
    {
      ghost var start := Present(repo);
      var excess := FindExcessObjectIDs(repo, snapshot);
      RemoveAll(repo, excess);
      ghost var kept := Present(repo);
      var missing := FindMissingObjectIDs(repo, snapshot);
      AddAll(repo, missing);
      SyncSets(start, excess, kept, missing, Present(repo), snapshot, unwritable);
    }

    /** Objects announced after the snapshot boundary. */
    method FollowUpdates(repo: string, updates: seq<ObjectID>)
      requires WellFormed(rows)
      modifies this
      ensures GrewFrom(old(rows), old(broadcasts), repo)
      ensures Present(repo) == old(Present(repo)) + (Writable(updates, unwritable) - {ZERO})
      ensures |Log(rows, repo)| == |Log(old(rows), repo)| + |Present(repo) - old(Present(repo))|
    {
      AddAll(repo, updates);
    }
  }

  function Writable(xs: seq<ObjectID>, unwritable: set<ObjectID>): set<ObjectID> {
    (set x | x in xs) - unwritable
  }

  lemma WritableStep(xs: seq<ObjectID>, i: nat, unwritable: set<ObjectID>)
    requires i < |xs|
    ensures Writable(xs[..i + 1], unwritable) ==
      Writable(xs[..i], unwritable) + if xs[i] in unwritable then {} else {xs[i]}
  {
    assert xs[..i + 1] == xs[..i] + [xs[i]];
  }

  /** Removing the excess and adding the missing reaches the snapshot, touching each object at most once. */
  lemma SyncSets(start: set<ObjectID>, excess: seq<ObjectID>, kept: set<ObjectID>, missing: seq<ObjectID>,
                 end: set<ObjectID>, snapshot: seq<ObjectID>, unwritable: set<ObjectID>)
    requires forall x :: x in excess <==> x in start && x !in snapshot
    requires kept == start - Writable(excess, unwritable)
    requires forall x :: x in missing <==> x in snapshot && x !in kept
    requires end == kept + (Writable(missing, unwritable) - {ZERO})
    ensures forall x :: x in end <==>
      if x in unwritable then x in start else x in snapshot && (x != ZERO || x in start)
    ensures |start - kept| + |end - kept| == |(start - end) + (end - start)|
  {
    assert start - kept == start - end && end - kept == end - start;
    assert (start - end) !! (end - start);
  }

  lemma RemovedCount(start: set<ObjectID>, xs: seq<ObjectID>, i: nat, unwritable: set<ObjectID>)
    requires i < |xs|
    ensures
      var now, next := start - Writable(xs[..i], unwritable), start - Writable(xs[..i + 1], unwritable);
      && next == (if xs[i] in unwritable then now else now - {xs[i]})
      && |start - next| == |start - now| + if next == now then 0 else 1
  {
    WritableStep(xs, i, unwritable);
    var now, next := start - Writable(xs[..i], unwritable), start - Writable(xs[..i + 1], unwritable);
    if next != now {
      assert start - next == (start - now) + {xs[i]};
    }
  }

  lemma AddedCount(start: set<ObjectID>, xs: seq<ObjectID>, i: nat, unwritable: set<ObjectID>)
    requires i < |xs|
    ensures
      var now := start + (Writable(xs[..i], unwritable) - {ZERO});
      var next := start + (Writable(xs[..i + 1], unwritable) - {ZERO});
      && next == (if xs[i] in unwritable || xs[i] == ZERO then now else now + {xs[i]})
      && |next - start| == |now - start| + if next == now then 0 else 1
  {
    WritableStep(xs, i, unwritable);
    var now := start + (Writable(xs[..i], unwritable) - {ZERO});
    var next := start + (Writable(xs[..i + 1], unwritable) - {ZERO});
    if next != now {
      assert next - start == (now - start) + {xs[i]};
    }
  }
}
