/**
 Any number of subscriptions of one indexer, opened and ended at any time and interleaved step by step. Committing an
 ack reads the cursor, compares, and writes it back in separate steps, as the cursor store offers no compare-and-set.
 */
module SharedCursor {
  import opened Bytes
  import opened ChangeLog
  import opened Subscription

  datatype Phase =
    | Looking
    | Sent(change: Entry)      // waiting for the peer's ack
    | Checked(change: Entry)   // acked, and the cursor read was right behind it
    | Ended

  /** One slot for each subscription that may be open; a slot is used again after its subscription ended. */
  datatype Shared = Shared(rows: seq<Entry>, cursors: Cursors, subs: seq<Phase>, acked: seq<Entry>)

  function Start(n: nat): Shared {
    Shared([], map[], seq(n, i => Ended), [])
  }

  datatype Event =
    | Change(op: Op)               // a change is recorded
    | Open(i: nat)                 // a subscription is opened
    | Pick(i: nat, repo: string)   // subscription i finds and sends the next change of an enabled repository
    | Acked(i: nat)                // its ack arrives and the cursor is read and compared
    | Commit(i: nat)               // the cursor is written
    | Stop(i: nat)                 // the subscription ends for any other reason

  predicate Enabled(st: Shared, ev: Event) {
    match ev
    case Change(op) => true
    case Open(i) => i < |st.subs| && st.subs[i].Ended?
    case Pick(i, repo) =>
      i < |st.subs| && st.subs[i].Looking? && NextChange(st.rows, repo, Cursor(st.cursors, repo)).Some?
    case Acked(i) => i < |st.subs| && st.subs[i].Sent?
    case Commit(i) => i < |st.subs| && st.subs[i].Checked?
    case Stop(i) => i < |st.subs|
  }

  function Step(st: Shared, ev: Event): Shared
    requires Enabled(st, ev)
  {
    match ev
    case Change(op) => st.(rows := ApplyOne(st.rows, op))
    case Open(i) => st.(subs := st.subs[i := Looking])
    case Pick(i, repo) =>
      st.(subs := st.subs[i := Sent(NextChange(st.rows, repo, Cursor(st.cursors, repo)).value)])
    case Acked(i) =>
      st.(subs := st.subs[i := if UpToDate(st, i) then Checked(st.subs[i].change) else Ended])
    case Commit(i) =>
      var e := st.subs[i].change;
      st.(cursors := st.cursors[e.repo := e.version], acked := st.acked + [e], subs := st.subs[i := Looking])
    case Stop(i) => st.(subs := st.subs[i := Ended])
  }

  /** The cursor is right behind the change a subscription holds. */
  predicate UpToDate(st: Shared, i: nat)
    requires i < |st.subs| && (st.subs[i].Sent? || st.subs[i].Checked?)
  {
    st.subs[i].change.version == Cursor(st.cursors, st.subs[i].change.repo) + 1
  }

  function Run(st: Shared, events: seq<Event>): Option<Shared> {
    if events == [] then Some(st)
    else
      var before := Run(st, events[..|events| - 1]);
      if before.Some? && Enabled(before.value, events[|events| - 1])
      then Some(Step(before.value, events[|events| - 1])) else None
  }

  /** How many of the first `k` slots hold an open subscription. */
  function OpenAmong(subs: seq<Phase>, k: nat): nat
    requires k <= |subs|
  {
    if k == 0 then 0 else OpenAmong(subs, k - 1) + if subs[k - 1].Ended? then 0 else 1
  }

  function OpenCount(subs: seq<Phase>): nat {
    OpenAmong(subs, |subs|)
  }

  /** In no state of the run are more than `k` subscriptions open. */
  ghost predicate AtMostOpen(k: nat, st: Shared, events: seq<Event>)
    requires Run(st, events).Some?
  {
    OpenCount(Run(st, events).value.subs) <= k && (events == [] || AtMostOpen(k, st, events[..|events| - 1]))
  }

  /** What was acked in each repository is exactly its log up to the cursor. */
  ghost predicate Exact(st: Shared) {
    forall repo :: Advanced(map[], st.cursors, st.rows, st.acked, repo)
  }

  ghost predicate EverExact(st: Shared, events: seq<Event>)
    requires Run(st, events).Some?
  {
    Exact(Run(st, events).value) && (events == [] || EverExact(st, events[..|events| - 1]))
  }

  /** Every commit of the run finds the cursor still right behind its change. */
  ghost predicate CommitsUpToDate(st: Shared, events: seq<Event>)
    requires Run(st, events).Some?
  {
    events == [] || (
      && CommitsUpToDate(st, events[..|events| - 1])
      && CommitUpToDate(Run(st, events[..|events| - 1]).value, events[|events| - 1]))
  }

  ghost predicate CommitUpToDate(st: Shared, ev: Event)
    requires Enabled(st, ev)
  {
    ev.Commit? ==> UpToDate(st, ev.i)
  }

  // ---------------------------------------------------------------------------------------
  // Any number of open subscriptions
  // ---------------------------------------------------------------------------------------

  /** The change a subscription holds is the log entry with its version. */
  ghost predicate InLog(rows: seq<Entry>, p: Phase) {
    p.Sent? || p.Checked? ==>
      && 1 <= p.change.version <= |Log(rows, p.change.repo)|
      && p.change == Log(rows, p.change.repo)[p.change.version - 1]
  }

  ghost predicate Sound(st: Shared) {
    WellFormed(st.rows) && forall i :: 0 <= i < |st.subs| ==> InLog(st.rows, st.subs[i])
  }

  lemma PickedInLog(rows: seq<Entry>, repo: string, after: nat)
    requires WellFormedLog(Log(rows, repo)) && NextChange(rows, repo, after).Some?
    ensures
      var e := NextChange(rows, repo, after).value;
      e.repo == repo && e.version == after + 1 && InLog(rows, Sent(e))
  {
    NextChangeIsEntry(rows, repo, after);
    LogOrigin(rows, repo, NextChange(rows, repo, after).value);
  }

  lemma ChangeSound(st: Shared, op: Op)
    requires Sound(st)
    ensures Sound(Step(st, Change(op)))
  {
    ApplyOneKeeps(st.rows, op);
    var rows := ApplyOne(st.rows, op);
    forall i | 0 <= i < |st.subs| ensures InLog(rows, st.subs[i]) {
      assert InLog(st.rows, st.subs[i]);
      if st.subs[i].Sent? || st.subs[i].Checked? {
        assert Followed(st.rows, rows, op, st.subs[i].change.repo);
      }
    }
  }

  lemma StepSound(st: Shared, ev: Event)
    requires Sound(st) && Enabled(st, ev)
    ensures Sound(Step(st, ev))
  {
    match ev
    case Change(op) => ChangeSound(st, op);
    case Pick(i, repo) =>
      assert WellFormedLog(Log(st.rows, repo));
      PickedInLog(st.rows, repo, Cursor(st.cursors, repo));
    case Acked(i) => assert InLog(st.rows, st.subs[i]);
    case Open(_) =>
    case Commit(_) =>
    case Stop(_) =>
  }

  lemma ChangeExact(st: Shared, op: Op)
    requires Sound(st) && Exact(st)
    ensures Exact(Step(st, Change(op)))
  {
    ApplyOneKeeps(st.rows, op);
    var rows := ApplyOne(st.rows, op);
    forall repo ensures Advanced(map[], st.cursors, rows, st.acked, repo) {
      assert Advanced(map[], st.cursors, st.rows, st.acked, repo) && Followed(st.rows, rows, op, repo);
      GrowthKeeps(map[], st.cursors, st.rows, rows, st.acked, repo);
    }
  }

  /** A commit keeps the account exact if and only if the cursor did not move since it was compared. */
  lemma CommitExactIff(st: Shared, i: nat)
    requires Sound(st) && Exact(st) && Enabled(st, Commit(i))
    ensures Exact(Step(st, Commit(i))) <==> UpToDate(st, i)
  {
    if UpToDate(st, i) {
      var e, st' := st.subs[i].change, Step(st, Commit(i));
      assert InLog(st.rows, st.subs[i]);
      AckExtends(map[], st.cursors, st'.cursors, st.rows, st.acked, e.repo, e);
    } else {
      LateCommitBreaks(st, i);
    }
  }

  /** As many entries are acked as before and one, but the cursor is not one further. */
  lemma LateCommitBreaks(st: Shared, i: nat)
    requires Exact(st) && Enabled(st, Commit(i)) && !UpToDate(st, i)
    ensures
      var st' := Step(st, Commit(i));
      !Advanced(map[], st'.cursors, st'.rows, st'.acked, st.subs[i].change.repo)
  {
    var e := st.subs[i].change;
    assert Advanced(map[], st.cursors, st.rows, st.acked, e.repo);
    LogAppend(st.acked, e, e.repo);
  }

  lemma StepExactIff(st: Shared, ev: Event)
    requires Sound(st) && Exact(st) && Enabled(st, ev)
    ensures Exact(Step(st, ev)) <==> CommitUpToDate(st, ev)
  {
    if ev.Change? {
      ChangeExact(st, ev.op);
    } else if ev.Commit? {
      CommitExactIff(st, ev.i);
    } else {
      var st' := Step(st, ev);
      forall repo ensures Advanced(map[], st'.cursors, st'.rows, st'.acked, repo) {
        assert Advanced(map[], st.cursors, st.rows, st.acked, repo);
      }
    }
  }

  lemma StartExact(n: nat)
    ensures Sound(Start(n)) && Exact(Start(n))
  {
    forall repo ensures Advanced(map[], map[], [], [], repo) && WellFormedLog(Log([], repo)) {
    }
  }

  lemma {:induction false} RunSound(n: nat, events: seq<Event>)
    requires Run(Start(n), events).Some?
    ensures Sound(Run(Start(n), events).value)
  {
    if events == [] {
      StartExact(n);
    } else {
      RunSound(n, events[..|events| - 1]);
      StepSound(Run(Start(n), events[..|events| - 1]).value, events[|events| - 1]);
    }
  }

  /**
   With any number of subscriptions open, a run is exact throughout if and only if every commit finds its
   cursor unmoved.
   */
  lemma {:induction false} RunExactIff(n: nat, events: seq<Event>)
    requires Run(Start(n), events).Some?
    ensures EverExact(Start(n), events) <==> CommitsUpToDate(Start(n), events)
  {
    if events == [] {
      StartExact(n);
    } else {
      var before := events[..|events| - 1];
      RunExactIff(n, before);
      RunSound(n, before);
      if EverExact(Start(n), before) {
        StepExactIff(Run(Start(n), before).value, events[|events| - 1]);
      }
    }
  }

  // ---------------------------------------------------------------------------------------
  // One open at a time
  // ---------------------------------------------------------------------------------------

  lemma {:induction false} OpenPair(subs: seq<Phase>, k: nat, i: nat, j: nat)
    requires i < j < k <= |subs| && !subs[i].Ended? && !subs[j].Ended?
    ensures OpenAmong(subs, k) >= 2
  {
    if j < k - 1 {
      OpenPair(subs, k - 1, i, j);
    } else {
      OpenOne(subs, k - 1, i);
    }
  }

  lemma {:induction false} OpenOne(subs: seq<Phase>, k: nat, i: nat)
    requires i < k <= |subs| && !subs[i].Ended?
    ensures OpenAmong(subs, k) >= 1
  {
    if i < k - 1 {
      OpenOne(subs, k - 1, i);
    }
  }

  lemma {:induction false} OpenBound(subs: seq<Phase>, k: nat)
    requires k <= |subs|
    ensures OpenAmong(subs, k) <= k
  {
    if k > 0 {
      OpenBound(subs, k - 1);
    }
  }

  lemma {:induction false} NoneOpen(subs: seq<Phase>, k: nat)
    requires k <= |subs| && forall i :: 0 <= i < k ==> subs[i].Ended?
    ensures OpenAmong(subs, k) == 0
  {
    if k > 0 {
      NoneOpen(subs, k - 1);
    }
  }

  ghost predicate Serial(st: Shared) {
    && (forall i, j :: 0 <= i < j < |st.subs| ==> st.subs[i].Ended? || st.subs[j].Ended?)
    && (forall i :: 0 <= i < |st.subs| && (st.subs[i].Sent? || st.subs[i].Checked?) ==> UpToDate(st, i))
  }

  lemma StepSerial(st: Shared, ev: Event)
    requires Sound(st) && Serial(st) && Enabled(st, ev) && OpenCount(Step(st, ev).subs) <= 1
    ensures Serial(Step(st, ev)) && CommitUpToDate(st, ev)
  {
    var st' := Step(st, ev);
    forall i, j | 0 <= i < j < |st'.subs| ensures st'.subs[i].Ended? || st'.subs[j].Ended? {
      if !st'.subs[i].Ended? && !st'.subs[j].Ended? {
        OpenPair(st'.subs, |st'.subs|, i, j);
      }
    }
    if ev.Pick? {
      assert WellFormedLog(Log(st.rows, ev.repo));
      PickedInLog(st.rows, ev.repo, Cursor(st.cursors, ev.repo));
    }
  }

  lemma {:induction false} RunSerial(n: nat, events: seq<Event>)
    requires Run(Start(n), events).Some? && AtMostOpen(1, Start(n), events)
    ensures Serial(Run(Start(n), events).value) && CommitsUpToDate(Start(n), events)
  {
    if events != [] {
      RunSerial(n, events[..|events| - 1]);
      RunSound(n, events[..|events| - 1]);
      StepSerial(Run(Start(n), events[..|events| - 1]).value, events[|events| - 1]);
    }
  }

  /** While at most one is open at a time, every step moves every cursor by nothing or by one. */
  lemma CursorAdvancesByOne(n: nat, events: seq<Event>, ev: Event)
    requires Run(Start(n), events).Some? && AtMostOpen(1, Start(n), events) && Enabled(Run(Start(n), events).value, ev)
    ensures
      var st := Run(Start(n), events).value;
      forall repo :: Cursor(st.cursors, repo) <= Cursor(Step(st, ev).cursors, repo) <= Cursor(st.cursors, repo) + 1
  {
    RunSerial(n, events);
  }

  /**
   An open subscription can send a repository's next change exactly while its cursor is behind its log. If nothing
   intervenes, the change is the log entry right behind the cursor, its ack is committed, and that cursor alone moves.
   */
  lemma NextIsDelivered(n: nat, events: seq<Event>, st: Shared, i: nat, repo: string)
    requires Run(Start(n), events) == Some(st) && i < |st.subs| && st.subs[i].Looking?
    ensures Enabled(st, Pick(i, repo)) <==> Cursor(st.cursors, repo) < |Log(st.rows, repo)|
    ensures Enabled(st, Pick(i, repo)) ==>
      var at := Cursor(st.cursors, repo);
      var sent := Step(st, Pick(i, repo));
      && Enabled(sent, Acked(i)) && Enabled(Step(sent, Acked(i)), Commit(i))
      && Step(Step(sent, Acked(i)), Commit(i)) ==
           Shared(st.rows, st.cursors[repo := at + 1], st.subs, st.acked + [Log(st.rows, repo)[at]])
  {
    RunSound(n, events);
    assert WellFormedLog(Log(st.rows, repo));
    NextChangeIsEntry(st.rows, repo, Cursor(st.cursors, repo));
    if Enabled(st, Pick(i, repo)) {
      PickedInLog(st.rows, repo, Cursor(st.cursors, repo));
      Delivered(st, i, repo);
    }
  }

  lemma Delivered(st: Shared, i: nat, repo: string)
    requires Enabled(st, Pick(i, repo))
    requires
      var e := NextChange(st.rows, repo, Cursor(st.cursors, repo)).value;
      e.repo == repo && e.version == Cursor(st.cursors, repo) + 1
    ensures
      var e, sent := NextChange(st.rows, repo, Cursor(st.cursors, repo)).value, Step(st, Pick(i, repo));
      && Enabled(sent, Acked(i)) && Enabled(Step(sent, Acked(i)), Commit(i))
      && Step(Step(sent, Acked(i)), Commit(i)) ==
           Shared(st.rows, st.cursors[repo := e.version], st.subs, st.acked + [e])
  {
    assert st.subs[i := Looking] == st.subs;
  }

  /** An ack that finds its cursor moved ends the subscription and leaves every cursor where it was. */
  lemma LateAckEnds(st: Shared, i: nat)
    requires Enabled(st, Acked(i)) && !UpToDate(st, i)
    ensures Step(st, Acked(i)) == Step(st, Stop(i)) && Step(st, Acked(i)).cursors == st.cursors
  {
  }

  /** While at most one is open at a time, replaying what was acked gives the state of the log at the cursor. */
  lemma AckedReplaysToCursor(n: nat, events: seq<Event>, repo: string)
    requires Run(Start(n), events).Some? && AtMostOpen(1, Start(n), events)
    ensures
      var st := Run(Start(n), events).value;
      && Cursor(st.cursors, repo) <= |Log(st.rows, repo)|
      && Of(st.acked, repo) == Log(st.rows, repo)[..Cursor(st.cursors, repo)]
      && Replay(Of(st.acked, repo)) == Replay(Log(st.rows, repo)[..Cursor(st.cursors, repo)])
  {
    RunSerial(n, events);
    RunExactIff(n, events);
    var st := Run(Start(n), events).value;
    assert Advanced(map[], st.cursors, st.rows, st.acked, repo);
    assert Log(st.rows, repo)[0..Cursor(st.cursors, repo)] == Log(st.rows, repo)[..Cursor(st.cursors, repo)];
  }

  // ---------------------------------------------------------------------------------------
  // Two open at once
  // ---------------------------------------------------------------------------------------

  const R: string := "r"
  const E1: Entry := Entry(R, 1, 1, true)
  const E2: Entry := Entry(R, 2, 2, true)

  ghost predicate Reaches(k: nat, n: nat, events: seq<Event>, st: Shared) {
    Run(Start(n), events) == Some(st) && AtMostOpen(k, Start(n), events)
  }

  lemma ReachesStep(k: nat, n: nat, events: seq<Event>, st: Shared, ev: Event)
    requires Reaches(k, n, events, st) && Enabled(st, ev) && OpenCount(Step(st, ev).subs) <= k
    ensures Reaches(k, n, events + [ev], Step(st, ev))
  {
    assert (events + [ev])[..|events|] == events;
  }

  function RaceState(cursors: Cursors, a: Phase, b: Phase, acked: seq<Entry>): Shared {
    Shared([E1, E2], cursors, [a, b], acked)
  }

  /** One step of the race. */
  lemma RaceMove(k: nat, events: seq<Event>, st: Shared, ev: Event, st': Shared)
    requires k >= 2 && Reaches(k, 2, events, st) && |st.subs| == 2 && Enabled(st, ev) && Step(st, ev) == st'
    ensures Reaches(k, 2, events + [ev], st') && |st'.subs| == 2
  {
    OpenBound(st'.subs, 2);
    ReachesStep(k, 2, events, st, ev);
  }

  /** Two changes are recorded and two subscriptions are opened. */
  lemma RaceOpens(k: nat) returns (events: seq<Event>)
    requires k >= 2
    ensures Reaches(k, 2, events, RaceState(map[], Looking, Looking, []))
  {
    RaceTable();
    var ended: seq<Phase> := [Ended, Ended];
    assert Start(2) == Shared([], map[], ended, []);
    NoneOpen(ended, 2);
    events := [];
    assert Reaches(k, 2, events, Start(2));
    RaceMove(k, events, Start(2), Change(Add(R, 1)), Shared([E1], map[], ended, []));
    events := events + [Change(Add(R, 1))];
    RaceMove(k, events, Shared([E1], map[], ended, []), Change(Add(R, 2)), RaceState(map[], Ended, Ended, []));
    events := events + [Change(Add(R, 2))];
    RaceMove(k, events, RaceState(map[], Ended, Ended, []), Open(0), RaceState(map[], Looking, Ended, []));
    events := events + [Open(0)];
    RaceMove(k, events, RaceState(map[], Looking, Ended, []), Open(1), RaceState(map[], Looking, Looking, []));
    events := events + [Open(1)];
  }

  /** Both send the first change and both acks pass the comparison. */
  lemma RaceChecks(k: nat) returns (events: seq<Event>)
    requires k >= 2
    ensures Reaches(k, 2, events, RaceState(map[], Checked(E1), Checked(E1), []))
  {
    RaceTable();
    events := RaceOpens(k);
    RaceMove(k, events, RaceState(map[], Looking, Looking, []), Pick(0, R), RaceState(map[], Sent(E1), Looking, []));
    events := events + [Pick(0, R)];
    RaceMove(k, events, RaceState(map[], Sent(E1), Looking, []), Pick(1, R), RaceState(map[], Sent(E1), Sent(E1), []));
    events := events + [Pick(1, R)];
    var half := RaceState(map[], Checked(E1), Sent(E1), []);
    RaceMove(k, events, RaceState(map[], Sent(E1), Sent(E1), []), Acked(0), half);
    events := events + [Acked(0)];
    RaceMove(k, events, half, Acked(1), RaceState(map[], Checked(E1), Checked(E1), []));
    events := events + [Acked(1)];
  }

  /** The race: the second subscription checks version 1, the first commits 1 and 2, the second writes 1 back. */
  lemma TwoSubscriptionsGoBack(k: nat) returns (events: seq<Event>, before: Shared, after: Shared)
    requires k >= 2
    ensures Reaches(k, 2, events, before) && Enabled(before, Commit(1)) && after == Step(before, Commit(1))
    ensures Reaches(k, 2, events + [Commit(1)], after)
    ensures Cursor(before.cursors, R) == 2 && Cursor(after.cursors, R) == 1
    ensures after.rows == [E1, E2] && after.acked == [E1, E2, E1]
  {
    RaceTable();
    events := RaceChecks(k);
    var s1 := RaceState(map[R := 1], Looking, Checked(E1), [E1]);
    RaceMove(k, events, RaceState(map[], Checked(E1), Checked(E1), []), Commit(0), s1);
    events := events + [Commit(0)];
    var s2 := RaceState(map[R := 1], Sent(E2), Checked(E1), [E1]);
    RaceMove(k, events, s1, Pick(0, R), s2);
    events := events + [Pick(0, R)];
    var s3 := RaceState(map[R := 1], Checked(E2), Checked(E1), [E1]);
    RaceMove(k, events, s2, Acked(0), s3);
    events := events + [Acked(0)];
    before := RaceState(map[R := 2], Looking, Checked(E1), [E1, E2]);
    RaceMove(k, events, s3, Commit(0), before);
    events := events + [Commit(0)];
    after := Step(before, Commit(1));
    RaceMove(k, events, before, Commit(1), after);
  }

  lemma RaceTable()
    ensures ApplyOne([], Add(R, 1)) == [E1] && ApplyOne([E1], Add(R, 2)) == [E1, E2]
    ensures NextChange([E1, E2], R, 0) == Some(E1) && NextChange([E1, E2], R, 1) == Some(E2)
  {
    assert [E1][..0] == [] && [E1, E2][..1] == [E1];
    assert MaxVersion([E1], R) == 1 && LatestRow([E1], R, 2) == None;
    assert NextChange([E1], R, 0) == Some(E1) && NextChange([E1], R, 1) == None;
  }

  lemma RaceLogs()
    ensures Log([E1, E2, E1], R) == [E1, E2, E1]
  {
    LogAppend([], E1, R);
    LogAppend([E1], E2, R);
    LogAppend([E1, E2], E1, R);
    assert [] + [E1] == [E1] && [E1] + [E2] == [E1, E2] && [E1, E2] + [E1] == [E1, E2, E1];
  }

  /** For every k: all runs with at most k subscriptions open at a time are exact if and only if k is at most one. */
  lemma ExactIffOneOpen(k: nat)
    ensures (forall n, events, st :: Reaches(k, n, events, st) ==> Exact(st)) <==> k <= 1
  {
    if k <= 1 {
      forall n: nat, events, st | Reaches(k, n, events, st) ensures Exact(st) {
        FewerOpen(k, 1, Start(n), events);
        RunSerial(n, events);
        RunExactIff(n, events);
      }
    } else {
      var events, before, after := TwoSubscriptionsGoBack(k);
      RaceLogs();
      assert !Advanced(map[], after.cursors, after.rows, after.acked, R);
    }
  }

  lemma {:induction false} FewerOpen(k: nat, m: nat, st: Shared, events: seq<Event>)
    requires k <= m && Run(st, events).Some? && AtMostOpen(k, st, events)
    ensures AtMostOpen(m, st, events)
  {
    if events != [] {
      FewerOpen(k, m, st, events[..|events| - 1]);
    }
  }
}
