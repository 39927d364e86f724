/** The change signal: appenders that broadcast after each change, and subscribers that wait for one. */
module Wakeup {
  import opened Bytes

  // ---------------------------------------------------------------------------------------
  // The signal
  // ---------------------------------------------------------------------------------------

  /** Channels are numbered as they are made; `notify` is the one waiters get. */
  datatype Signal = Signal(notify: Option<nat>, closed: set<nat>, made: nat)

  /** The current channel, made on first use. */
  function Current(g: Signal): Signal {
    if g.notify.Some? then g else g.(notify := Some(g.made), made := g.made + 1)
  }

  /** Closes the current channel and puts a new one in its place. */
  function Broadcasted(g: Signal): Signal {
    Signal(Some(g.made), if g.notify.Some? then g.closed + {g.notify.value} else g.closed, g.made + 1)
  }

  ghost predicate ValidSignal(g: Signal) {
    && (forall c :: c in g.closed ==> c < g.made)
    && (g.notify.Some? ==> g.notify.value < g.made && g.notify.value !in g.closed)
  }

  class Notifier {
    var notify: Option<nat>
    var closed: set<nat>
    var made: nat

    ghost function View(): Signal
      reads this
    {
      Signal(notify, closed, made)
    }

    constructor ()
      ensures View() == Signal(None, {}, 0)
    {
      notify, closed, made := None, {}, 0;
    }

    method ChangeSignal() returns (ch: nat)
      requires ValidSignal(View())
      modifies this
      ensures View() == Current(old(View())) && ValidSignal(View())
      ensures notify == Some(ch) && ch !in closed
    {
      if notify.None? {
        notify, made := Some(made), made + 1;
      }
      ch := notify.value;
    }

    method BroadcastChange()
      requires ValidSignal(View())
      modifies this
      ensures View() == Broadcasted(old(View())) && ValidSignal(View())
      ensures old(notify).Some? ==> old(notify.value) in closed
    {
      if notify.Some? {
        closed := closed + {notify.value};
      }
      notify, made := Some(made), made + 1;
    }
  }

  // ---------------------------------------------------------------------------------------
  // Appenders and subscribers
  // ---------------------------------------------------------------------------------------

  /** An appender between its write and its broadcast holds the change it wrote. */
  datatype Appender = Idle | Wrote(repo: string, version: nat)

  datatype Phase =
    | Top                                                    // about to take the signal
    | HasSignal(ch: nat)                                     // about to list the enabled repositories
    | Scanning(ch: nat, todo: seq<string>, done: set<string>) // looking for an unacked change
    | Blocked(ch: nat, done: set<string>)                    // found none in any of them
    | Serving(repo: string, version: nat)                    // sent a change, waiting for its ack

  datatype Subscriber = Subscriber(phase: Phase, cursors: map<string, nat>)

  datatype System = System(
    length: map<string, nat>,        // entries in each repository's log
    enabled: set<string>,
    signal: Signal,
    appenders: seq<Appender>,
    subs: seq<Subscriber>)

  function At(m: map<string, nat>, repo: string): nat {
    if repo in m then m[repo] else 0
  }

  datatype Event =
    | Append(a: nat, repo: string)
    | Broadcast(a: nat)
    | Enable(repo: string)
    | Disable(repo: string)
    | TakeSignal(i: nat)
    | List(i: nat, order: seq<string>)
    | Check(i: nat)
    | Block(i: nat)
    | Wake(i: nat)
    | Ack(i: nat)

  function Elements(order: seq<string>): set<string> {
    set r | r in order
  }

  predicate Lists(order: seq<string>, repos: set<string>) {
    Elements(order) == repos
  }

  predicate Enabled(st: System, ev: Event) {
    match ev
    case Append(a, repo) => a < |st.appenders| && st.appenders[a].Idle?
    case Broadcast(a) => a < |st.appenders| && st.appenders[a].Wrote?
    case Enable(repo) => true
    case Disable(repo) => true
    case TakeSignal(i) => i < |st.subs| && st.subs[i].phase.Top?
    case List(i, order) => i < |st.subs| && st.subs[i].phase.HasSignal? && Lists(order, st.enabled)
    case Check(i) => i < |st.subs| && st.subs[i].phase.Scanning? && st.subs[i].phase.todo != []
    case Block(i) => i < |st.subs| && st.subs[i].phase.Scanning? && st.subs[i].phase.todo == []
    case Wake(i) => i < |st.subs| && st.subs[i].phase.Blocked? && st.subs[i].phase.ch in st.signal.closed
    case Ack(i) => i < |st.subs| && st.subs[i].phase.Serving?
  }

  function SetPhase(st: System, i: nat, p: Phase): System
    requires i < |st.subs|
  {
    st.(subs := st.subs[i := st.subs[i].(phase := p)])
  }

  function Step(st: System, ev: Event): System
    requires Enabled(st, ev)
  {
    match ev
    case Append(a, repo) =>
      var v := At(st.length, repo) + 1;
      st.(length := st.length[repo := v], appenders := st.appenders[a := Wrote(repo, v)])
    case Broadcast(a) =>
      st.(signal := Broadcasted(st.signal), appenders := st.appenders[a := Idle])
    case Enable(repo) => st.(enabled := st.enabled + {repo})
    case Disable(repo) => st.(enabled := st.enabled - {repo})
    case TakeSignal(i) =>
      var g := Current(st.signal);
      SetPhase(st.(signal := g), i, HasSignal(g.notify.value))
    case List(i, order) => SetPhase(st, i, Scanning(st.subs[i].phase.ch, order, {}))
    case Check(i) =>
      var p, repo := st.subs[i].phase, st.subs[i].phase.todo[0];
      var cursor := At(st.subs[i].cursors, repo);
      if cursor < At(st.length, repo) then SetPhase(st, i, Serving(repo, cursor + 1))
      else SetPhase(st, i, Scanning(p.ch, p.todo[1..], p.done + {repo}))
    case Block(i) => SetPhase(st, i, Blocked(st.subs[i].phase.ch, st.subs[i].phase.done))
    case Wake(i) => SetPhase(st, i, Top)
    case Ack(i) =>
      var p := st.subs[i].phase;
      st.(subs := st.subs[i := Subscriber(Top, st.subs[i].cursors[p.repo := p.version])])
  }

  function Start(enabled: set<string>, appenders: nat, subs: nat): System {
    System(map[], enabled, Signal(None, {}, 0), seq(appenders, i => Idle), seq(subs, i => Subscriber(Top, map[])))
  }

  function Run(st: System, events: seq<Event>): Option<System> {
    if events == [] then Some(st)
    else
      var before := Run(st, events[..|events| - 1]);
      if before.Some? && Enabled(before.value, events[|events| - 1])
      then Some(Step(before.value, events[|events| - 1])) else None
  }

  // ---------------------------------------------------------------------------------------
  // Invariant
  // ---------------------------------------------------------------------------------------

  /** Every change of `repo` past the cursor was written by an appender whose broadcast is still to run. */
  ghost predicate OnlyUnannounced(st: System, sub: Subscriber, repo: string) {
    forall v :: At(sub.cursors, repo) < v <= At(st.length, repo) ==> Wrote(repo, v) in st.appenders
  }

  ghost predicate Holds(p: Phase, ch: nat) {
    (p.HasSignal? || p.Scanning? || p.Blocked?) && p.ch == ch
  }

  /** A subscriber with an open signal holds the current one, and what it has scanned has nothing announced left. */
  ghost predicate SubInv(st: System, sub: Subscriber) {
    forall ch :: Holds(sub.phase, ch) && ch !in st.signal.closed ==>
      && st.signal.notify == Some(ch)
      && (sub.phase.Scanning? || sub.phase.Blocked? ==>
            forall repo :: repo in sub.phase.done ==> OnlyUnannounced(st, sub, repo))
  }

  ghost predicate Inv(st: System) {
    && ValidSignal(st.signal)
    && (forall sub :: sub in st.subs ==> SubInv(st, sub))
  }

  lemma AppendKeeps(st: System, a: nat, repo: string)
    requires Inv(st) && Enabled(st, Append(a, repo))
    ensures Inv(Step(st, Append(a, repo)))
  {
    var st' := Step(st, Append(a, repo));
    forall sub, r | sub in st.subs && OnlyUnannounced(st, sub, r) ensures OnlyUnannounced(st', sub, r) {
      UnannouncedGrows(st, a, repo, sub, r);
    }
    assert forall sub :: sub in st.subs ==> SubInv(st, sub);
  }

  lemma BroadcastKeeps(st: System, a: nat)
    requires Inv(st) && Enabled(st, Broadcast(a))
    ensures Inv(Step(st, Broadcast(a)))
    ensures forall i, ch :: 0 <= i < |st.subs| && Holds(st.subs[i].phase, ch) ==>
      ch in Step(st, Broadcast(a)).signal.closed
  {
    forall i, ch | 0 <= i < |st.subs| && Holds(st.subs[i].phase, ch)
      ensures ch in Step(st, Broadcast(a)).signal.closed
    {
      assert SubInv(st, st.subs[i]);
    }
    forall sub | sub in st.subs ensures SubInv(Step(st, Broadcast(a)), sub) {
      var i :| 0 <= i < |st.subs| && st.subs[i] == sub;
    }
  }

  /** A step of one subscriber that leaves the logs and appenders alone concerns no other. */
  lemma OthersKeep(st: System, st': System, i: nat)
    requires Inv(st) && i < |st.subs| == |st'.subs|
    requires st'.length == st.length && st'.appenders == st.appenders && ValidSignal(st'.signal)
    requires st'.signal.closed == st.signal.closed && (st.signal.notify.Some? ==> st'.signal.notify == st.signal.notify)
    requires forall k :: 0 <= k < |st.subs| && k != i ==> st'.subs[k] == st.subs[k]
    requires SubInv(st', st'.subs[i])
    ensures Inv(st')
  {
    forall k | 0 <= k < |st'.subs| && k != i ensures SubInv(st', st'.subs[k]) {
      assert SubInv(st, st.subs[k]);
      var sub := st.subs[k];
      if sub.phase.Scanning? || sub.phase.Blocked? {
        forall repo | repo in sub.phase.done && OnlyUnannounced(st, sub, repo) ensures OnlyUnannounced(st', sub, repo) {
        }
      }
    }
  }

  lemma SubscriberKeeps(st: System, ev: Event, i: nat)
    requires Inv(st) && Enabled(st, ev) && i < |st.subs|
    requires
      || ev == TakeSignal(i) || (ev.List? && ev.i == i) || ev == Check(i)
      || ev == Block(i) || ev == Wake(i) || ev == Ack(i)
    ensures Inv(Step(st, ev))
  {
    var st', sub := Step(st, ev), st.subs[i];
    assert SubInv(st, sub);
    var sub' := st'.subs[i];
    if sub'.phase.Scanning? || sub'.phase.Blocked? {
      forall repo | repo in sub'.phase.done && sub'.phase.ch !in st.signal.closed
        ensures OnlyUnannounced(st', sub', repo)
      {
        if sub.phase.Scanning? && repo in sub.phase.done {
          assert OnlyUnannounced(st, sub, repo);
        }
      }
    }
    OthersKeep(st, st', i);
  }

  lemma StepKeeps(st: System, ev: Event)
    requires Inv(st) && Enabled(st, ev)
    ensures Inv(Step(st, ev))
  {
    match ev
    case Append(a, repo) => AppendKeeps(st, a, repo);
    case Broadcast(a) => BroadcastKeeps(st, a);
    case Enable(repo) =>
      assert forall sub :: sub in st.subs ==> SubInv(st, sub) && SubInv(Step(st, ev), sub);
    case Disable(repo) =>
      assert forall sub :: sub in st.subs ==> SubInv(st, sub) && SubInv(Step(st, ev), sub);
    case TakeSignal(i) => SubscriberKeeps(st, ev, i);
    case List(i, order) => SubscriberKeeps(st, ev, i);
    case Check(i) => SubscriberKeeps(st, ev, i);
    case Block(i) => SubscriberKeeps(st, ev, i);
    case Wake(i) => SubscriberKeeps(st, ev, i);
    case Ack(i) => SubscriberKeeps(st, ev, i);
  }

  lemma {:induction false} RunKeeps(enabled: set<string>, m: nat, n: nat, events: seq<Event>)
    requires Run(Start(enabled, m, n), events).Some?
    ensures Inv(Run(Start(enabled, m, n), events).value)
  {
    if events != [] {
      RunKeeps(enabled, m, n, events[..|events| - 1]);
      StepKeeps(Run(Start(enabled, m, n), events[..|events| - 1]).value, events[|events| - 1]);
    }
  }

  // ---------------------------------------------------------------------------------------
  // Main results
  // ---------------------------------------------------------------------------------------

  /** A subscriber sleeps on an open signal past a change of an enabled repository that was already announced. */
  ghost predicate LostWakeup(st: System) {
    exists i, repo, v :: Misses(st, i, repo, v)
  }

  ghost predicate Misses(st: System, i: nat, repo: string, v: nat) {
    && i < |st.subs| && st.subs[i].phase.Blocked? && st.subs[i].phase.ch !in st.signal.closed
    && repo in st.enabled
    && At(st.subs[i].cursors, repo) < v <= At(st.length, repo)
    && Wrote(repo, v) !in st.appenders
  }

  ghost predicate Reachable(st: System) {
    exists enabled, m, n, events :: Reaches(enabled, m, n, events, st)
  }

  ghost predicate Reaches(enabled: set<string>, m: nat, n: nat, events: seq<Event>, st: System) {
    Run(Start(enabled, m, n), events) == Some(st)
  }

  lemma ReachableInv(st: System)
    requires Reachable(st)
    ensures Inv(st)
  {
    var enabled, m, n, events :| Reaches(enabled, m, n, events, st);
    RunKeeps(enabled, m, n, events);
  }

  /** No cursor is past its log, and a change being served is the one right behind its cursor and in the log. */
  ghost predicate InOrder(length: map<string, nat>, sub: Subscriber) {
    && (forall repo :: At(sub.cursors, repo) <= At(length, repo))
    && (sub.phase.Serving? ==>
          sub.phase.version == At(sub.cursors, sub.phase.repo) + 1 <= At(length, sub.phase.repo))
  }

  lemma StepInOrder(st: System, ev: Event, i: nat)
    requires Enabled(st, ev) && i < |st.subs| && InOrder(st.length, st.subs[i])
    ensures |Step(st, ev).subs| == |st.subs| && InOrder(Step(st, ev).length, Step(st, ev).subs[i])
  {
    if ev.Append? {
      assert forall repo :: At(st.length, repo) <= At(Step(st, ev).length, repo);
    }
  }

  lemma {:induction false} RunInOrder(enabled: set<string>, m: nat, n: nat, events: seq<Event>, i: nat)
    requires Run(Start(enabled, m, n), events).Some? && i < |Run(Start(enabled, m, n), events).value.subs|
    ensures
      var st := Run(Start(enabled, m, n), events).value;
      InOrder(st.length, st.subs[i])
  {
    if events != [] {
      var before := Run(Start(enabled, m, n), events[..|events| - 1]).value;
      RunInOrder(enabled, m, n, events[..|events| - 1], i);
      StepInOrder(before, events[|events| - 1], i);
    }
  }

  /**
   In every interleaving: the change a subscriber serves is the one right behind its cursor and exists, and its ack
   moves that cursor alone and by one.
   */
  lemma ServedInOrder(st: System, i: nat, repo: string)
    requires Reachable(st) && i < |st.subs| && st.subs[i].phase.Serving?
    ensures
      var sub, p := st.subs[i], st.subs[i].phase;
      && p.version == At(sub.cursors, p.repo) + 1 <= At(st.length, p.repo)
      && Enabled(st, Ack(i))
      && At(Step(st, Ack(i)).subs[i].cursors, repo) == At(sub.cursors, repo) + if repo == p.repo then 1 else 0
  {
    var enabled, m, n, events :| Reaches(enabled, m, n, events, st);
    RunInOrder(enabled, m, n, events, i);
  }

  /** Checking repositories that are caught up passes over them. */
  lemma {:induction false} ScanPasses(st: System, i: nat, k: nat)
    requires i < |st.subs| && st.subs[i].phase.Scanning? && k <= |st.subs[i].phase.todo|
    requires forall j :: 0 <= j < k ==>
      At(st.length, st.subs[i].phase.todo[j]) <= At(st.subs[i].cursors, st.subs[i].phase.todo[j])
    ensures
      var p := st.subs[i].phase;
      Run(st, Checks(i, k)) == Some(SetPhase(st, i, Scanning(p.ch, p.todo[k..], p.done + Elements(p.todo[..k]))))
  {
    var p := st.subs[i].phase;
    if k == 0 {
      assert p.todo[0..] == p.todo && p.done + Elements(p.todo[..0]) == p.done;
      assert st.subs[i := st.subs[i]] == st.subs;
    } else {
      ScanPasses(st, i, k - 1);
      assert Checks(i, k)[..k - 1] == Checks(i, k - 1);
      OneMoreDone(p.todo, k - 1, p.done);
      var mid := SetPhase(st, i, Scanning(p.ch, p.todo[k - 1..], p.done + Elements(p.todo[..k - 1])));
      CheckPasses(mid, i);
      SetTwice(st, i, mid.subs[i].phase, Step(mid, Check(i)).subs[i].phase);
      assert Checks(i, k)[k - 1] == Check(i);
    }
  }

  function Checks(i: nat, k: nat): seq<Event> {
    seq(k, j => Check(i))
  }

  lemma SetTwice(st: System, i: nat, p: Phase, q: Phase)
    requires i < |st.subs|
    ensures SetPhase(SetPhase(st, i, p), i, q) == SetPhase(st, i, q)
  {
    var one := st.subs[i].(phase := p);
    assert st.subs[i := one][i := one.(phase := q)] == st.subs[i := st.subs[i].(phase := q)];
  }

  lemma CheckPasses(st: System, i: nat)
    requires Enabled(st, Check(i))
    requires
      var repo := st.subs[i].phase.todo[0];
      At(st.length, repo) <= At(st.subs[i].cursors, repo)
    ensures
      var p := st.subs[i].phase;
      Step(st, Check(i)) == SetPhase(st, i, Scanning(p.ch, p.todo[1..], p.done + {p.todo[0]}))
  {
  }

  lemma OneMoreDone(todo: seq<string>, k: nat, done: set<string>)
    requires k < |todo|
    ensures todo[k..][1..] == todo[k + 1..] && todo[k..][0] == todo[k]
    ensures done + Elements(todo[..k + 1]) == done + Elements(todo[..k]) + {todo[k]}
  {
    TakeOneMore(todo, k);
  }

  /**
   A subscriber that starts over takes the signal, lists any order of the enabled repositories and checks them in it:
   it serves the change right behind the cursor of the first that is not caught up, or goes to sleep when all are.
   */
  lemma ScanFinds(st: System, i: nat, order: seq<string>) returns (k: nat, events: seq<Event>)
    requires i < |st.subs| && st.subs[i].phase.Top? && Lists(order, st.enabled)
    ensures k <= |order| && forall j :: 0 <= j < k ==> At(st.length, order[j]) <= At(st.subs[i].cursors, order[j])
    ensures k < |order| ==> At(st.subs[i].cursors, order[k]) < At(st.length, order[k])
    ensures
      var listed := Step(Step(st, TakeSignal(i)), List(i, order));
      var end := Run(listed, events);
      && end.Some? && end.value.length == st.length && |end.value.subs| == |st.subs|
      && end.value.subs[i].cursors == st.subs[i].cursors
      && if k < |order| then end.value.subs[i].phase == Serving(order[k], At(st.subs[i].cursors, order[k]) + 1)
         else end.value.subs[i].phase.Blocked? && end.value.subs[i].phase.done == st.enabled
  {
    k := FirstBehind(st.length, st.subs[i].cursors, order);
    events := ScanEnds(Step(Step(st, TakeSignal(i)), List(i, order)), i, k);
  }

  lemma FirstBehind(length: map<string, nat>, cursors: map<string, nat>, order: seq<string>) returns (k: nat)
    ensures k <= |order| && forall j :: 0 <= j < k ==> At(length, order[j]) <= At(cursors, order[j])
    ensures k < |order| ==> At(cursors, order[k]) < At(length, order[k])
  {
    k := 0;
    while k < |order| && At(length, order[k]) <= At(cursors, order[k])
      invariant k <= |order| && forall j :: 0 <= j < k ==> At(length, order[j]) <= At(cursors, order[j])
    {
      k := k + 1;
    }
  }

  lemma ScanEnds(st: System, i: nat, k: nat) returns (events: seq<Event>)
    requires i < |st.subs| && st.subs[i].phase.Scanning? && k <= |st.subs[i].phase.todo|
    requires forall j :: 0 <= j < k ==>
      At(st.length, st.subs[i].phase.todo[j]) <= At(st.subs[i].cursors, st.subs[i].phase.todo[j])
    requires
      var p := st.subs[i].phase;
      k < |p.todo| ==> At(st.subs[i].cursors, p.todo[k]) < At(st.length, p.todo[k])
    ensures
      var sub, p := st.subs[i], st.subs[i].phase;
      Run(st, events) == Some(SetPhase(st, i,
        if k < |p.todo| then Serving(p.todo[k], At(sub.cursors, p.todo[k]) + 1)
        else Blocked(p.ch, p.done + Elements(p.todo))))
  {
    var p := st.subs[i].phase;
    ScanPasses(st, i, k);
    var mid := SetPhase(st, i, Scanning(p.ch, p.todo[k..], p.done + Elements(p.todo[..k])));
    var last := if k < |p.todo| then Check(i) else Block(i);
    events := Checks(i, k) + [last];
    assert events[..|events| - 1] == Checks(i, k);
    assert p.todo[..|p.todo|] == p.todo;
    SetTwice(st, i, mid.subs[i].phase, Step(mid, last).subs[i].phase);
  }

  /** In every interleaving: what a sleeping subscriber scanned holds nothing that was announced. */
  lemma ScannedHoldsNothingAnnounced(st: System, i: nat, repo: string, v: nat)
    requires Reachable(st) && i < |st.subs|
    requires st.subs[i].phase.Blocked? && st.subs[i].phase.ch !in st.signal.closed && repo in st.subs[i].phase.done
    requires At(st.subs[i].cursors, repo) < v <= At(st.length, repo)
    ensures Wrote(repo, v) in st.appenders
  {
    ReachableInv(st);
    var sub := st.subs[i];
    assert SubInv(st, sub) && Holds(sub.phase, sub.phase.ch);
    assert OnlyUnannounced(st, sub, repo);
  }

  /** In every interleaving: a broadcast lets every sleeping subscriber wake, and it then starts over where it was. */
  lemma BroadcastWakesAll(st: System, a: nat, i: nat)
    requires Reachable(st) && Enabled(st, Broadcast(a)) && i < |st.subs| && st.subs[i].phase.Blocked?
    ensures
      var told := Step(st, Broadcast(a));
      Enabled(told, Wake(i)) && Step(told, Wake(i)) == SetPhase(told, i, Top) && told.subs == st.subs
  {
    ReachableInv(st);
    BroadcastKeeps(st, a);
    assert Holds(st.subs[i].phase, st.subs[i].phase.ch);
  }

  // ---------------------------------------------------------------------------------------
  // Enabling a repository
  // ---------------------------------------------------------------------------------------

  /** What the events last did to a repository, if anything. */
  function LastSwitch(events: seq<Event>, repo: string): Option<bool> {
    if events == [] then None
    else
      var last := events[|events| - 1];
      if last == Enable(repo) then Some(true)
      else if last == Disable(repo) then Some(false)
      else LastSwitch(events[..|events| - 1], repo)
  }

  /** A repository is enabled exactly if it was last enabled, or was at the start and never touched. */
  lemma {:induction false} EnabledIsLastSwitch(enabled: set<string>, m: nat, n: nat, events: seq<Event>, repo: string)
    requires Run(Start(enabled, m, n), events).Some?
    ensures
      var last := LastSwitch(events, repo);
      repo in Run(Start(enabled, m, n), events).value.enabled <==>
        if last.Some? then last.value else repo in enabled
  {
    if events != [] {
      EnabledIsLastSwitch(enabled, m, n, events[..|events| - 1], repo);
    }
  }

  /** The subscriber is past its listing and no broadcast has come since. */
  predicate Listed(st: System, p: Phase) {
    (p.Scanning? || p.Blocked?) && p.ch !in st.signal.closed
  }

  /** The repository was on the list, or holds nothing that was announced. */
  ghost predicate Seen(st: System, sub: Subscriber, repo: string)
    requires Listed(st, sub.phase)
  {
    || (sub.phase.Scanning? && repo in sub.phase.todo)
    || repo in sub.phase.done
    || OnlyUnannounced(st, sub, repo)
  }

  /** Enabling `repo` now can make nobody miss anything. */
  ghost predicate Harmless(st: System, repo: string) {
    forall sub :: sub in st.subs && Listed(st, sub.phase) ==> Seen(st, sub, repo)
  }

  ghost predicate AllSeen(st: System) {
    forall repo :: repo in st.enabled ==> Harmless(st, repo)
  }

  /** Every enable of the run is harmless where it happens. */
  ghost predicate HarmlessRun(st: System, events: seq<Event>)
    requires Run(st, events).Some?
  {
    events == [] || (
      && HarmlessRun(st, events[..|events| - 1])
      && HarmlessEvent(Run(st, events[..|events| - 1]).value, events[|events| - 1]))
  }

  ghost predicate HarmlessEvent(st: System, ev: Event) {
    ev.Enable? ==> Harmless(st, ev.repo)
  }

  /** What was seen stays seen by the same subscriber as long as it scans or sleeps. */
  lemma SeenKeeps(st: System, ev: Event, k: nat, repo: string)
    requires Inv(st) && Enabled(st, ev) && k < |st.subs|
    requires Listed(Step(st, ev), Step(st, ev).subs[k].phase)
    requires repo in st.enabled || ev.Enable? || ev.Disable?
    requires Listed(st, st.subs[k].phase) ==> Seen(st, st.subs[k], repo)
    ensures Seen(Step(st, ev), Step(st, ev).subs[k], repo)
  {
    var st', sub := Step(st, ev), st.subs[k];
    match ev
    case Append(a, r) =>
      if OnlyUnannounced(st, sub, repo) { UnannouncedGrows(st, a, r, sub, repo); }
    case Broadcast(a) =>
      BroadcastKeeps(st, a);
      assert Holds(sub.phase, sub.phase.ch);
    case List(i, order) =>
      if i == k { assert repo in set r | r in order; }
    case Check(i) =>
      if i == k { HeadTail(sub.phase.todo); }
      if OnlyUnannounced(st, sub, repo) { assert OnlyUnannounced(st', st'.subs[k], repo); }
    case _ =>
      if OnlyUnannounced(st, sub, repo) { assert OnlyUnannounced(st', sub, repo); }
  }

  lemma UnannouncedGrows(st: System, a: nat, r: string, sub: Subscriber, repo: string)
    requires Enabled(st, Append(a, r)) && OnlyUnannounced(st, sub, repo)
    ensures OnlyUnannounced(Step(st, Append(a, r)), sub, repo)
  {
    var st' := Step(st, Append(a, r));
    forall v | At(sub.cursors, repo) < v <= At(st'.length, repo) ensures Wrote(repo, v) in st'.appenders {
      StaysWrote(st, a, r, repo, v);
    }
  }

  lemma AllSeenKeeps(st: System, ev: Event)
    requires Inv(st) && AllSeen(st) && Enabled(st, ev) && HarmlessEvent(st, ev)
    ensures AllSeen(Step(st, ev))
  {
    var st' := Step(st, ev);
    forall repo, k | repo in st'.enabled && 0 <= k < |st'.subs| && Listed(st', st'.subs[k].phase)
      ensures Seen(st', st'.subs[k], repo)
    {
      assert Harmless(st, repo);
      assert st.subs[k] in st.subs;
      SeenKeeps(st, ev, k, repo);
    }
    forall repo | repo in st'.enabled ensures Harmless(st', repo) {
      forall sub | sub in st'.subs && Listed(st', sub.phase) ensures Seen(st', sub, repo) {
        var k :| 0 <= k < |st'.subs| && st'.subs[k] == sub;
      }
    }
  }

  /** A state in which everything enabled was seen loses no wake-up. */
  lemma SeenLosesNothing(st: System)
    requires Inv(st) && AllSeen(st)
    ensures !LostWakeup(st)
  {
    forall i: nat, repo, v: nat ensures !Misses(st, i, repo, v) {
      if i < |st.subs| && st.subs[i].phase.Blocked? && Listed(st, st.subs[i].phase) && repo in st.enabled {
        SleeperSees(st, i, repo);
      }
    }
  }

  lemma SleeperSees(st: System, i: nat, repo: string)
    requires Inv(st) && i < |st.subs| && st.subs[i].phase.Blocked? && Listed(st, st.subs[i].phase)
    ensures Seen(st, st.subs[i], repo) <==> OnlyUnannounced(st, st.subs[i], repo)
  {
    assert SubInv(st, st.subs[i]) && Holds(st.subs[i].phase, st.subs[i].phase.ch);
  }

  lemma {:induction false} HarmlessRunSees(enabled: set<string>, m: nat, n: nat, events: seq<Event>)
    requires Run(Start(enabled, m, n), events).Some? && HarmlessRun(Start(enabled, m, n), events)
    ensures AllSeen(Run(Start(enabled, m, n), events).value)
  {
    if events != [] {
      var before := events[..|events| - 1];
      HarmlessRunSees(enabled, m, n, before);
      RunKeeps(enabled, m, n, before);
      AllSeenKeeps(Run(Start(enabled, m, n), before).value, events[|events| - 1]);
    }
  }

  /** No wake-up is lost in any interleaving whose enables are all harmless; with none at all, in particular. */
  lemma NoLostWakeup(enabled: set<string>, m: nat, n: nat, events: seq<Event>)
    requires Run(Start(enabled, m, n), events).Some? && HarmlessRun(Start(enabled, m, n), events)
    ensures !LostWakeup(Run(Start(enabled, m, n), events).value)
  {
    HarmlessRunSees(enabled, m, n, events);
    RunKeeps(enabled, m, n, events);
    SeenLosesNothing(Run(Start(enabled, m, n), events).value);
  }

  /** A sleeper on an open signal for which enabling `repo` is not harmless. */
  ghost predicate SleepsPast(st: System, i: nat, repo: string) {
    i < |st.subs| && st.subs[i].phase.Blocked? && Listed(st, st.subs[i].phase) && !Seen(st, st.subs[i], repo)
  }

  /** Where nothing is lost yet, enabling a repository loses a wake-up if and only if some sleeper breaks the guard. */
  lemma EnableLosesIff(st: System, repo: string)
    requires Reachable(st) && !LostWakeup(st)
    ensures LostWakeup(Step(st, Enable(repo))) <==> exists i :: SleepsPast(st, i, repo)
  {
    ReachableInv(st);
    var st' := Step(st, Enable(repo));
    if i: nat :| SleepsPast(st, i, repo) {
      var v :| At(st.subs[i].cursors, repo) < v <= At(st.length, repo) && Wrote(repo, v) !in st.appenders;
      assert Misses(st', i, repo, v);
    }
    if i, r, v :| Misses(st', i, r, v) {
      assert !Misses(st, i, r, v);
      SleeperSees(st, i, r);
      assert SleepsPast(st, i, repo);
    }
  }

  /** Going to sleep loses a wake-up if and only if something enabled since the listing was announced before it. */
  lemma BlockLosesIff(st: System, i: nat)
    requires Reachable(st) && !LostWakeup(st) && Enabled(st, Block(i))
    ensures LostWakeup(Step(st, Block(i))) <==>
      Listed(st, st.subs[i].phase) && exists repo :: repo in st.enabled && !Seen(st, st.subs[i], repo)
  {
    ReachableInv(st);
    StepKeeps(st, Block(i));
    var st' := Step(st, Block(i));
    forall repo ensures OnlyUnannounced(st', st'.subs[i], repo) == OnlyUnannounced(st, st.subs[i], repo) {
    }
    if Listed(st, st.subs[i].phase) {
      if repo :| repo in st.enabled && !Seen(st, st.subs[i], repo) {
        var v :| At(st.subs[i].cursors, repo) < v <= At(st.length, repo) && Wrote(repo, v) !in st.appenders;
        assert Misses(st', i, repo, v);
      }
    }
    if k, r, v :| Misses(st', k, r, v) {
      if k != i {
        assert Misses(st, k, r, v);
      } else {
        SleeperSees(st', i, r);
        assert r in st.enabled && !Seen(st, st.subs[i], r);
      }
    }
  }

  /** No other step loses a wake-up. */
  lemma OthersLoseNothing(st: System, ev: Event)
    requires Reachable(st) && !LostWakeup(st) && Enabled(st, ev) && !ev.Enable? && !ev.Block?
    ensures !LostWakeup(Step(st, ev))
  {
    ReachableInv(st);
    var st' := Step(st, ev);
    if ev.Broadcast? { BroadcastKeeps(st, ev.a); }
    forall i: nat, repo, v: nat ensures !Misses(st', i, repo, v) {
      assert !Misses(st, i, repo, v);
      if i < |st.subs| && st'.subs[i].phase.Blocked? {
        assert Holds(st.subs[i].phase, st.subs[i].phase.ch);
        if ev.Append? && (Wrote(repo, v) in st.appenders || At(st.length, repo) < v <= At(st'.length, repo)) {
          StaysWrote(st, ev.a, ev.repo, repo, v);
        }
      }
    }
  }

  lemma StaysWrote(st: System, a: nat, r: string, repo: string, v: nat)
    requires Enabled(st, Append(a, r))
    requires Wrote(repo, v) in st.appenders || At(st.length, repo) < v <= At(Step(st, Append(a, r)).length, repo)
    ensures Wrote(repo, v) in Step(st, Append(a, r)).appenders
  {
    var st' := Step(st, Append(a, r));
    assert st'.appenders[a] == Wrote(r, At(st.length, r) + 1);
    if Wrote(repo, v) in st.appenders {
      var b :| 0 <= b < |st.appenders| && st.appenders[b] == Wrote(repo, v);
      assert st'.appenders[b] == Wrote(repo, v);
    }
  }

  /** The condition on a step not to lose a wake-up. */
  ghost predicate SafeEvent(st: System, ev: Event)
    requires Enabled(st, ev)
  {
    && (ev.Enable? ==> forall i :: !SleepsPast(st, i, ev.repo))
    && (ev.Block? && Listed(st, st.subs[ev.i].phase) ==>
          forall repo :: repo in st.enabled ==> Seen(st, st.subs[ev.i], repo))
  }

  /** Where none is lost yet, a step loses a wake-up if and only if it breaks its condition. */
  lemma StepLosesIff(st: System, ev: Event)
    requires Reachable(st) && !LostWakeup(st) && Enabled(st, ev)
    ensures LostWakeup(Step(st, ev)) <==> !SafeEvent(st, ev)
  {
    if ev.Enable? {
      EnableLosesIff(st, ev.repo);
    } else if ev.Block? {
      BlockLosesIff(st, ev.i);
    } else {
      OthersLoseNothing(st, ev);
    }
  }

  ghost predicate EverAwake(st: System, events: seq<Event>)
    requires Run(st, events).Some?
  {
    !LostWakeup(Run(st, events).value) && (events == [] || EverAwake(st, events[..|events| - 1]))
  }

  /** Every step of the run meets its condition where it happens. */
  ghost predicate SafeRun(st: System, events: seq<Event>)
    requires Run(st, events).Some?
  {
    events == [] || (
      && SafeRun(st, events[..|events| - 1])
      && SafeEvent(Run(st, events[..|events| - 1]).value, events[|events| - 1]))
  }

  /** A run never loses a wake-up if and only if every enable and every going to sleep in it meets its condition. */
  lemma {:induction false} RunLosesIff(enabled: set<string>, m: nat, n: nat, events: seq<Event>)
    requires Run(Start(enabled, m, n), events).Some?
    ensures EverAwake(Start(enabled, m, n), events) <==> SafeRun(Start(enabled, m, n), events)
  {
    if events == [] {
      assert forall i: nat, repo, v: nat :: !Misses(Start(enabled, m, n), i, repo, v);
    } else {
      var before := events[..|events| - 1];
      RunLosesIff(enabled, m, n, before);
      var st := Run(Start(enabled, m, n), before).value;
      assert Reaches(enabled, m, n, before, st);
      if EverAwake(Start(enabled, m, n), before) {
        StepLosesIff(st, events[|events| - 1]);
      }
    }
  }

  lemma ReachesStep(enabled: set<string>, m: nat, n: nat, events: seq<Event>, st: System, ev: Event)
    requires Reaches(enabled, m, n, events, st) && Enabled(st, ev)
    ensures Reaches(enabled, m, n, events + [ev], Step(st, ev))
  {
    assert (events + [ev])[..|events|] == events;
  }

  /** A change of a repository is written and announced, then the repository is disabled. */
  lemma AnnouncedThenDisabled() returns (es: seq<Event>)
    ensures Reaches({"r"}, 1, 1, es,
      System(map["r" := 1], {}, Signal(Some(0), {}, 1), [Idle], [Subscriber(Top, map[])]))
  {
    var r := "r";
    var st := Start({r}, 1, 1);
    es := [];
    assert Reaches({r}, 1, 1, es, st);
    ReachesStep({r}, 1, 1, es, st, Append(0, r));
    es, st := es + [Append(0, r)], Step(st, Append(0, r));
    ReachesStep({r}, 1, 1, es, st, Broadcast(0));
    es, st := es + [Broadcast(0)], Step(st, Broadcast(0));
    ReachesStep({r}, 1, 1, es, st, Disable(r));
    es, st := es + [Disable(r)], Step(st, Disable(r));
    assert st.enabled == {} && st.appenders == [Idle] && st.length == map[r := 1];
    assert st.subs == [Subscriber(Top, map[])];
  }

  /** Enabling it again after a subscriber went to sleep wakes nobody. */
  lemma EnablingLosesWakeup() returns (st: System)
    ensures Reachable(st) && LostWakeup(st)
  {
    var r := "r";
    var es := AnnouncedThenDisabled();
    st := System(map[r := 1], {}, Signal(Some(0), {}, 1), [Idle], [Subscriber(Top, map[])]);
    ReachesStep({r}, 1, 1, es, st, TakeSignal(0));
    es, st := es + [TakeSignal(0)], Step(st, TakeSignal(0));
    ReachesStep({r}, 1, 1, es, st, List(0, []));
    es, st := es + [List(0, [])], Step(st, List(0, []));
    ReachesStep({r}, 1, 1, es, st, Block(0));
    es, st := es + [Block(0)], Step(st, Block(0));
    ReachesStep({r}, 1, 1, es, st, Enable(r));
    es, st := es + [Enable(r)], Step(st, Enable(r));
    assert Misses(st, 0, r, 1);
  }
}
