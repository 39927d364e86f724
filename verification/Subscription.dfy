/** Per-repository cursors of an indexer, and the subscriptions that advance them. */
module Subscription {
  import opened Bytes
  import opened ChangeLog

  type Cursors = map<string, nat>

  /** Zero when no cursor is stored yet. */
  function Cursor(cursors: Cursors, repo: string): nat {
    if repo in cursors then cursors[repo] else 0
  }

  /** The entries of `acked` that belong to a repository, in order. */
  function Of(acked: seq<Entry>, repo: string): seq<Entry> {
    Log(acked, repo)
  }

  // ---------------------------------------------------------------------------------------
  // One subscription, as the operation runs it
  // ---------------------------------------------------------------------------------------

  datatype SetError = InvalidIndexHeight

  datatype Answer = Ack(repo: string, version: nat) | TemporaryFailure | Gone

  /** What happens outside before the subscription looks, which repositories are enabled, how the peer answers. */
  datatype Turn = Turn(changes: seq<Op>, enabled: seq<string>, answer: Answer)

  class Indexer {
    var cursors: Cursors

    constructor ()
      ensures cursors == map[]
    {
      cursors := map[];
    }

    method SetState(repo: string, version: nat) returns (err: Option<SetError>)
      modifies this
      ensures err.None? <==> version == Cursor(old(cursors), repo) + 1
      ensures cursors == if err.None? then old(cursors)[repo := version] else old(cursors)
    {
      var current := Cursor(cursors, repo);
      if version != current + 1 {
        return Some(InvalidIndexHeight);
      }
      cursors := cursors[repo := version];
      err := None;
    }

    /** The first enabled repository with an unacked change, or none when all are caught up. */
    method PickNextChange(rows: seq<Entry>, enabled: seq<string>) returns (pick: Option<(string, Entry)>)
      requires WellFormed(rows)
      ensures pick.None? ==> forall r :: r in enabled ==> |Log(rows, r)| <= Cursor(cursors, r)
      ensures pick.Some? ==>
        var (repo, change) := pick.value;
        && repo in enabled
        && Cursor(cursors, repo) < |Log(rows, repo)|
        && change == Log(rows, repo)[Cursor(cursors, repo)]
        && change.repo == repo && change.version == Cursor(cursors, repo) + 1
    {
      for i := 0 to |enabled|
        invariant forall r :: r in enabled[..i] ==> |Log(rows, r)| <= Cursor(cursors, r)
      {
        var repo := enabled[i];
        var version := Cursor(cursors, repo);
        assert WellFormedLog(Log(rows, repo));
        NextChangeIsEntry(rows, repo, version);
        var change := NextChange(rows, repo, version);
        if change.Some? {
          LogOrigin(rows, repo, change.value);
          return Some((repo, change.value));
        }
      }
      assert enabled[..|enabled|] == enabled;
      pick := None;
    }

    /** Looks for a change unless one is still unanswered. */
    method NextPending(rows: seq<Entry>, enabled: seq<string>, pending: Option<(string, Entry)>)
        returns (next: Option<(string, Entry)>)
      requires WellFormed(rows) && PendingIsNext(cursors, rows, pending)
      ensures PendingIsNext(cursors, rows, next)
      ensures pending.Some? ==> next == pending
      ensures pending.None? && next.Some? ==> next.value.0 in enabled
      ensures next.None? ==> forall r :: r in enabled ==> |Log(rows, r)| <= Cursor(cursors, r)
    {
      next := pending;
      if pending.None? {
        next := PickNextChange(rows, enabled);
      }
    }

    /** Commits an acked change, when the ack names it. */
    method Acknowledge(pending: (string, Entry), ackRepo: string, ackVersion: nat) returns (ok: bool)
      modifies this
      ensures ok ==> cursors == old(cursors)[pending.0 := pending.1.version]
      ensures !ok ==> cursors == old(cursors)
      ensures ok <==>
        && (ackRepo, ackVersion) == (pending.0, pending.1.version)
        && ackVersion == Cursor(old(cursors), ackRepo) + 1
    {
      if ackRepo != pending.0 || ackVersion != pending.1.version {
        return false;
      }
      var err := SetState(pending.0, pending.1.version);
      ok := err.None?;
    }

    /** One turn: sends what is pending, if anything, and acts on the answer. */
    method Serve(rows: seq<Entry>, enabled: seq<string>, answer: Answer, pending: Option<(string, Entry)>)
        returns (served: Served, next: Option<(string, Entry)>)
      requires WellFormed(rows) && PendingIsNext(cursors, rows, pending)
      modifies this
      ensures served.Waited? ==>
        pending.None? && forall r :: r in enabled ==> |Log(rows, r)| <= Cursor(old(cursors), r)
      ensures served.Offered? ==>
        && served.answer == answer && IsNext(old(cursors), rows, served.change.repo, served.change)
        && (pending.Some? ==> served.change == pending.value.1)
        && (pending.None? ==> served.change.repo in enabled)
      ensures cursors ==
        if Acks(served) then old(cursors)[served.change.repo := served.change.version] else old(cursors)
      ensures next ==
        if served.Offered? && answer.TemporaryFailure? then Some((served.change.repo, served.change)) else None
    {
      next := NextPending(rows, enabled, pending);
      if next.None? {
        return Waited, None;
      }
      served := Offered(next.value.1, answer);
      if answer.TemporaryFailure? {
        return;
      }
      if answer.Ack? {
        var ok := Acknowledge(next.value, answer.repo, answer.version);
      }
      next := None;
    }

    /**
     The send, ack, advance loop against any script of turns. What is sent is the entry right behind the cursor of an
     enabled repository, or the one whose answer was a temporary failure; an ack that names it commits it; nothing is
     sent only when every enabled repository is caught up; any other answer ends the loop. So what is acked in each
     repository is the next stretch of its log, without gap or repeat, and the cursor ends right behind it.
     */
    method Subscribe(rows0: seq<Entry>, turns: seq<Turn>) returns (rows: seq<Entry>, trace: seq<Served>)
      requires WellFormed(rows0)
      requires forall repo :: Cursor(cursors, repo) <= |Log(rows0, repo)|
      modifies this
      ensures |trace| <= |turns| && rows == TableAt(rows0, turns, |trace|)
      ensures WellFormed(rows) && Extends(rows0, rows)
      ensures forall repo :: Advanced(old(cursors), cursors, rows, AckedIn(trace, |trace|), repo)
      ensures TurnsOk(old(cursors), rows0, turns, trace)
      ensures forall k :: 0 <= k < |trace| - 1 ==> !Ends(trace[k])
      ensures |trace| < |turns| ==> trace != [] && Ends(trace[|trace| - 1])
    {
      ghost var start := cursors;
      rows, trace := rows0, [];
      assert forall repo :: Advanced(start, cursors, rows, [], repo);
      var pending: Option<(string, Entry)> := None;
      for i := 0 to |turns|
        invariant |trace| == i && rows == TableAt(rows0, turns, i) && pending == Unanswered(trace, i)
        invariant Account(start, cursors, rows0, rows, AckedIn(trace, i), pending)
        invariant TurnsOk(start, rows0, turns, trace)
        invariant forall k :: 0 <= k < i ==> !Ends(trace[k])
      {
        ghost var acked, held, before := AckedIn(trace, i), pending, cursors;
        TableGrows(start, cursors, rows0, rows, turns[i].changes, acked, pending);
        rows := Apply(rows, turns[i].changes);
        var served;
        served, pending := Serve(rows, turns[i].enabled, turns[i].answer, pending);
        TurnTaken(start, before, rows0, turns, trace, held, served);
        if Acks(served) {
          AckExtends(start, before, cursors, rows, acked, served.change.repo, served.change);
        }
        trace := trace + [served];
        if Ends(served) {
          return;
        }
      }
    }
  }

  // ---------------------------------------------------------------------------------------
  // What a run of the loop shows
  // ---------------------------------------------------------------------------------------

  /** What holds between two turns. */
  ghost predicate Account(start: Cursors, cursors: Cursors, rows0: seq<Entry>, rows: seq<Entry>, acked: seq<Entry>,
                          pending: Option<(string, Entry)>) {
    && WellFormed(rows) && Extends(rows0, rows) && PendingIsNext(cursors, rows, pending)
    && forall repo :: Advanced(start, cursors, rows, acked, repo)
  }

  /** One turn: nothing to send, or a change and how it was answered. */
  datatype Served = Waited | Offered(change: Entry, answer: Answer)

  /** The answer names the change that was sent. */
  predicate Acks(t: Served) {
    t.Offered? && t.answer == Ack(t.change.repo, t.change.version)
  }

  predicate Ends(t: Served) {
    t.Offered? && !t.answer.TemporaryFailure? && !Acks(t)
  }

  /** The changes acked in the first `k` turns. */
  function AckedIn(trace: seq<Served>, k: nat): seq<Entry>
    requires k <= |trace|
  {
    if k == 0 then []
    else if Acks(trace[k - 1]) then AckedIn(trace, k - 1) + [trace[k - 1].change]
    else AckedIn(trace, k - 1)
  }

  /** The change still unanswered after `k` turns. */
  function Unanswered(trace: seq<Served>, k: nat): Option<(string, Entry)>
    requires k <= |trace|
  {
    if k > 0 && trace[k - 1].Offered? && trace[k - 1].answer.TemporaryFailure?
    then Some((trace[k - 1].change.repo, trace[k - 1].change)) else None
  }

  /** The table after the changes of the first `k` turns. */
  function TableAt(rows0: seq<Entry>, turns: seq<Turn>, k: nat): seq<Entry>
    requires k <= |turns|
  {
    if k == 0 then rows0 else Apply(TableAt(rows0, turns, k - 1), turns[k - 1].changes)
  }

  /** How far a repository is acked after `k` turns. */
  function AckedTo(start: Cursors, trace: seq<Served>, k: nat, repo: string): nat
    requires k <= |trace|
  {
    Cursor(start, repo) + |Of(AckedIn(trace, k), repo)|
  }

  /** Turn `k` sent what it should, or nothing because there was nothing. */
  ghost predicate TurnOk(start: Cursors, rows0: seq<Entry>, turns: seq<Turn>, trace: seq<Served>, k: nat)
    requires k < |trace| <= |turns|
  {
    var rows := TableAt(rows0, turns, k + 1);
    match trace[k]
    case Waited =>
      && Unanswered(trace, k).None?
      && forall r :: r in turns[k].enabled ==> |Log(rows, r)| <= AckedTo(start, trace, k, r)
    case Offered(e, answer) =>
      && answer == turns[k].answer
      && e.version == AckedTo(start, trace, k, e.repo) + 1 <= |Log(rows, e.repo)|
      && e == Log(rows, e.repo)[e.version - 1]
      && match Unanswered(trace, k)
         case Some(held) => e == held.1
         case None => e.repo in turns[k].enabled
  }

  ghost predicate TurnsOk(start: Cursors, rows0: seq<Entry>, turns: seq<Turn>, trace: seq<Served>) {
    |trace| <= |turns| && forall k :: 0 <= k < |trace| ==> TurnOk(start, rows0, turns, trace, k)
  }

  lemma {:induction false} TracePrefix(trace: seq<Served>, t: Served, k: nat)
    requires k <= |trace|
    ensures AckedIn(trace + [t], k) == AckedIn(trace, k) && Unanswered(trace + [t], k) == Unanswered(trace, k)
    ensures k < |trace| ==> (trace + [t])[k] == trace[k]
  {
    if k > 0 {
      TracePrefix(trace, t, k - 1);
      assert (trace + [t])[k - 1] == trace[k - 1];
    }
  }

  /** One more turn that sends what is pending, or nothing when nothing is. */
  lemma TurnTaken(start: Cursors, cursors: Cursors, rows0: seq<Entry>, turns: seq<Turn>, trace: seq<Served>,
                  held: Option<(string, Entry)>, t: Served)
    requires |trace| < |turns| && held == Unanswered(trace, |trace|)
    requires TurnsOk(start, rows0, turns, trace)
    requires
      var rows := TableAt(rows0, turns, |trace| + 1);
      && (forall repo :: Advanced(start, cursors, rows, AckedIn(trace, |trace|), repo))
      && (t.Waited? ==> held.None? && forall r :: r in turns[|trace|].enabled ==> |Log(rows, r)| <= Cursor(cursors, r))
      && (t.Offered? ==>
            && t.answer == turns[|trace|].answer && IsNext(cursors, rows, t.change.repo, t.change)
            && (held.Some? ==> t.change == held.value.1) && (held.None? ==> t.change.repo in turns[|trace|].enabled))
    ensures TurnsOk(start, rows0, turns, trace + [t])
    ensures AckedIn(trace + [t], |trace| + 1) ==
      if Acks(t) then AckedIn(trace, |trace|) + [t.change] else AckedIn(trace, |trace|)
  {
    var n, trace', rows := |trace|, trace + [t], TableAt(rows0, turns, |trace| + 1);
    forall k | 0 <= k < n ensures TurnOk(start, rows0, turns, trace', k) {
      assert TurnOk(start, rows0, turns, trace, k);
      TracePrefix(trace, t, k);
    }
    TracePrefix(trace, t, n);
    forall r ensures Cursor(cursors, r) == AckedTo(start, trace, n, r) {
      assert Advanced(start, cursors, rows, AckedIn(trace, n), r);
    }
    assert TurnOk(start, rows0, turns, trace', n);
  }

  ghost predicate Extends(rows0: seq<Entry>, rows: seq<Entry>) {
    forall repo :: Log(rows0, repo) <= Log(rows, repo)
  }

  /** The cursor of `repo` has moved from `start` exactly past the entries acked since. */
  ghost predicate Advanced(start: Cursors, cursors: Cursors, rows: seq<Entry>, acked: seq<Entry>, repo: string) {
    && Cursor(start, repo) <= Cursor(cursors, repo) <= |Log(rows, repo)|
    && Of(acked, repo) == Log(rows, repo)[Cursor(start, repo)..Cursor(cursors, repo)]
  }

  /** `change` is the entry right behind the cursor of `repo`. */
  ghost predicate IsNext(cursors: Cursors, rows: seq<Entry>, repo: string, change: Entry) {
    && Cursor(cursors, repo) < |Log(rows, repo)|
    && change == Log(rows, repo)[Cursor(cursors, repo)]
    && change.repo == repo && change.version == Cursor(cursors, repo) + 1
  }

  ghost predicate PendingIsNext(cursors: Cursors, rows: seq<Entry>, pending: Option<(string, Entry)>) {
    pending.Some? ==> IsNext(cursors, rows, pending.value.0, pending.value.1)
  }

  /** Tables only grow, repository by repository and row by row. */
  lemma {:induction false} AppliedExtends(rows: seq<Entry>, ops: seq<Op>)
    requires WellFormed(rows)
    ensures WellFormed(Apply(rows, ops)) && Extends(rows, Apply(rows, ops)) && rows <= Apply(rows, ops)
  {
    if ops != [] {
      var before := Apply(rows, ops[..|ops| - 1]);
      AppliedExtends(rows, ops[..|ops| - 1]);
      ApplyOneKeeps(before, ops[|ops| - 1]);
      forall repo ensures Log(rows, repo) <= Log(Apply(rows, ops), repo) {
        assert Log(rows, repo) <= Log(before, repo);
        assert Followed(before, ApplyOne(before, ops[|ops| - 1]), ops[|ops| - 1], repo);
      }
    }
  }

  /** Changes recorded meanwhile disturb neither the account so far nor the pending change. */
  lemma TableGrows(start: Cursors, cursors: Cursors, rows0: seq<Entry>, rows: seq<Entry>, ops: seq<Op>,
                   acked: seq<Entry>, pending: Option<(string, Entry)>)
    requires WellFormed(rows) && Extends(rows0, rows)
    requires forall repo :: Advanced(start, cursors, rows, acked, repo)
    requires PendingIsNext(cursors, rows, pending)
    ensures
      var rows' := Apply(rows, ops);
      && WellFormed(rows') && Extends(rows0, rows') && rows <= rows'
      && (forall repo :: Advanced(start, cursors, rows', acked, repo))
      && PendingIsNext(cursors, rows', pending)
  {
    AppliedExtends(rows, ops);
    var rows' := Apply(rows, ops);
    forall repo ensures Log(rows0, repo) <= Log(rows', repo) {
      assert Log(rows0, repo) <= Log(rows, repo) && Log(rows, repo) <= Log(rows', repo);
    }
    forall repo ensures Advanced(start, cursors, rows', acked, repo) {
      assert Advanced(start, cursors, rows, acked, repo) && Log(rows, repo) <= Log(rows', repo);
      GrowthKeeps(start, cursors, rows, rows', acked, repo);
    }
    if pending.Some? {
      assert Log(rows, pending.value.0) <= Log(rows', pending.value.0);
    }
  }

  /** A longer log has the same stretch behind the cursor. */
  lemma GrowthKeeps(start: Cursors, cursors: Cursors, rows: seq<Entry>, rows': seq<Entry>, acked: seq<Entry>,
                    repo: string)
    requires Advanced(start, cursors, rows, acked, repo) && Log(rows, repo) <= Log(rows', repo)
    ensures Advanced(start, cursors, rows', acked, repo)
  {
    SamePart(Log(rows, repo), Log(rows', repo), Cursor(start, repo), Cursor(cursors, repo));
  }

  lemma SamePart<T>(s: seq<T>, t: seq<T>, a: nat, b: nat)
    requires s <= t && a <= b <= |s|
    ensures s[a..b] == t[a..b]
  {
  }

  lemma PartSnoc<T>(s: seq<T>, a: nat, b: nat)
    requires a <= b < |s|
    ensures s[a..b + 1] == s[a..b] + [s[b]]
  {
  }

  /** Committing the entry right behind the cursor appends exactly it to the acked stretch. */
  lemma AckExtends(start: Cursors, before: Cursors, after: Cursors, rows: seq<Entry>, acked: seq<Entry>,
                   repo: string, change: Entry)
    requires IsNext(before, rows, repo, change) && after == before[repo := change.version]
    requires forall r :: Advanced(start, before, rows, acked, r)
    ensures forall r :: Advanced(start, after, rows, acked + [change], r)
  {
    forall r ensures Advanced(start, after, rows, acked + [change], r) {
      assert Advanced(start, before, rows, acked, r);
      AckExtendsOne(start, before, after, rows, acked, change, r);
    }
  }

  lemma AckExtendsOne(start: Cursors, before: Cursors, after: Cursors, rows: seq<Entry>, acked: seq<Entry>,
                      change: Entry, r: string)
    requires IsNext(before, rows, change.repo, change) && after == before[change.repo := change.version]
    requires Advanced(start, before, rows, acked, r)
    ensures Advanced(start, after, rows, acked + [change], r)
  {
    LogAppend(acked, change, r);
    if r == change.repo {
      PartSnoc(Log(rows, r), Cursor(start, r), Cursor(before, r));
    }
  }
}
