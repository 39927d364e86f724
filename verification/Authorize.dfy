/** Delegated authorization: the walk over the contract graph and the chains it decides. */
module Authorize {

  /** Identities compare by value; 0 is the anonymous identity. */
  type Identity = nat

  const ANYONE: Identity := 0

  /** `rule` stands for the permit's constraints, which only `World.constraint` reads. */
  datatype Permit = Permit(action: string, delegation: nat, rule: nat)

  datatype Contract = Contract(issuer: Identity, subject: Identity, permits: seq<Permit>, startsAt: int, expiresAt: int)
  {
    function HasPermit(actionType: string): seq<Permit> {
      PermitsFor(permits, actionType)
    }

    predicate Active(now: int) {
      startsAt <= now < expiresAt
    }
  }

  function PermitsFor(permits: seq<Permit>, actionType: string): seq<Permit> {
    if permits == [] then []
    else if permits[0].action == actionType then [permits[0]] + PermitsFor(permits[1..], actionType)
    else PermitsFor(permits[1..], actionType)
  }

  lemma {:induction false} PermitsOrigin(permits: seq<Permit>, actionType: string, p: Permit)
    ensures p in PermitsFor(permits, actionType) <==> p in permits && p.action == actionType
  {
    if permits != [] {
      PermitsOrigin(permits[1..], actionType, p);
      assert permits == [permits[0]] + permits[1..];
    }
  }

  /** A registered handler: its answer depends on the actor the action currently names. */
  datatype Handler = Handler(nodeLocal: bool, allows: Identity -> bool)

  /** Everything the walk consults, fixed for one action during one call. */
  datatype World = World(
    actionType: string,
    now: int,
    handlers: seq<Handler>,
    contracts: seq<Contract>,
    lookupFails: set<Identity>,
    constraint: (Permit, Identity) -> bool,
    externals: map<string, Identity -> bool>,
    name: Identity -> string)

  /** The contract lookup of one level: a zero subject drops the subject filter. */
  function Find(w: World, actor: Identity): seq<Contract> {
    Matching(w.contracts, actor, w.actionType, w.now)
  }

  function Matching(contracts: seq<Contract>, actor: Identity, actionType: string, now: int): (r: seq<Contract>)
    ensures forall c :: c in r <==>
      c in contracts && c.Active(now) && (actor == ANYONE || c.subject == actor) && c.HasPermit(actionType) != []
  {
    if contracts == [] then []
    else
      var rest := Matching(contracts[1..], actor, actionType, now);
      var c := contracts[0];
      if c.Active(now) && (actor == ANYONE || c.subject == actor) && c.HasPermit(actionType) != []
      then [c] + rest else rest
  }

  function ExternalKey(w: World, actor: Identity): string {
    if actor == ANYONE then w.actionType else w.actionType + "/" + w.name(actor)
  }

  /** The actor's own authority when one is assigned, otherwise the action-wide one. */
  predicate ExternalAllows(w: World, actor: Identity) {
    if ExternalKey(w, actor) in w.externals then w.externals[ExternalKey(w, actor)](actor)
    else w.actionType in w.externals && w.externals[w.actionType](actor)
  }

  // ---------------------------------------------------------------------------------------
  // Chains, independent of any search
  // ---------------------------------------------------------------------------------------

  ghost predicate HandlerAllows(w: World, actor: Identity, hops: nat) {
    exists h :: h in w.handlers && (h.nodeLocal ==> hops == 0) && h.allows(actor)
  }

  /** Authority is held at `actor`, `hops` links above the caller. */
  ghost predicate Grants(w: World, actor: Identity, hops: nat) {
    HandlerAllows(w, actor, hops) || (actor !in w.lookupFails && ExternalAllows(w, actor))
  }

  predicate Usable(w: World, p: Permit, actor: Identity, hops: nat) {
    p.delegation >= hops && w.constraint(p, actor)
  }

  ghost predicate LinksBy(w: World, actor: Identity, hops: nat, c: Contract, p: Permit) {
    c in Find(w, actor) && p in c.HasPermit(w.actionType) && Usable(w, p, actor, hops)
  }

  /** Some contract hands the action down from `issuer` to `actor` at link number `hops`. */
  ghost predicate Link(w: World, actor: Identity, hops: nat, issuer: Identity) {
    actor !in w.lookupFails && exists c, p :: LinksBy(w, actor, hops, c, p) && c.issuer == issuer
  }

  /** `path[0]` is reached by `hops` links already; the path may revisit identities. */
  ghost predicate Chain(w: World, path: seq<Identity>, hops: nat) {
    && path != []
    && (forall i :: 0 <= i < |path| - 1 ==> Link(w, path[i], hops + i, path[i + 1]))
    && Grants(w, path[|path| - 1], hops + |path| - 1)
  }

  ghost predicate Authorized(w: World, caller: Identity) {
    exists path :: path != [] && path[0] == caller && Chain(w, path, 0)
  }

  // ---------------------------------------------------------------------------------------
  // Chains that respect the cycle guard
  // ---------------------------------------------------------------------------------------

  function Issuers(w: World): set<Identity> {
    set c | c in w.contracts :: c.issuer
  }

  /** No step of the path re-enters a visited identity or one of its own. */
  ghost predicate Guarded(path: seq<Identity>, visited: set<Identity>) {
    && (forall i :: 1 <= i < |path| ==> path[i] !in visited)
    && (forall i, j :: 1 <= i < j < |path| ==> path[i] != path[j])
  }

  ghost predicate GuardedChain(w: World, path: seq<Identity>, hops: nat, visited: set<Identity>) {
    Chain(w, path, hops) && Guarded(path, visited)
  }

  /** What one level of the walk decides. */
  ghost predicate Found(w: World, actor: Identity, hops: nat, visited: set<Identity>) {
    exists path :: GuardedChain(w, path, hops, visited) && path[0] == actor
  }

  ghost predicate Onward(w: World, actor: Identity, hops: nat, visited: set<Identity>, y: Identity) {
    y !in visited && Link(w, actor, hops, y) && Found(w, y, hops + 1, visited + {y})
  }

  lemma ChainTail(w: World, path: seq<Identity>, hops: nat, visited: set<Identity>)
    requires GuardedChain(w, path, hops, visited) && |path| > 1
    ensures GuardedChain(w, path[1..], hops + 1, visited + {path[1]})
  {
    var rest := path[1..];
    forall i | 0 <= i < |rest| - 1 ensures Link(w, rest[i], hops + 1 + i, rest[i + 1]) {
      assert Link(w, path[i + 1], hops + (i + 1), path[i + 2]);
    }
  }

  lemma ChainCons(w: World, actor: Identity, rest: seq<Identity>, hops: nat, visited: set<Identity>)
    requires rest != [] && GuardedChain(w, rest, hops + 1, visited + {rest[0]})
    requires Link(w, actor, hops, rest[0]) && rest[0] !in visited
    ensures GuardedChain(w, [actor] + rest, hops, visited)
  {
    var path := [actor] + rest;
    forall i | 0 <= i < |path| - 1 ensures Link(w, path[i], hops + i, path[i + 1]) {
      if i > 0 { assert Link(w, rest[i - 1], hops + 1 + (i - 1), rest[i]); }
    }
    forall i, j | 1 <= i < j < |path| ensures path[i] != path[j] {
      assert path[i] == rest[i - 1] && path[j] == rest[j - 1];
    }
  }

  /** A guarded chain ends here or goes on through one unvisited issuer. */
  lemma FoundUnfolds(w: World, actor: Identity, hops: nat, visited: set<Identity>)
    ensures Found(w, actor, hops, visited) <==>
            Grants(w, actor, hops) || exists y :: Onward(w, actor, hops, visited, y)
  {
    if Grants(w, actor, hops) {
      assert GuardedChain(w, [actor], hops, visited);
    }
    if Found(w, actor, hops, visited) && !Grants(w, actor, hops) {
      var path :| GuardedChain(w, path, hops, visited) && path[0] == actor;
      assert |path| > 1 && Link(w, path[0], hops + 0, path[1]);
      ChainTail(w, path, hops, visited);
      assert Onward(w, actor, hops, visited, path[1]);
    }
    if y :| Onward(w, actor, hops, visited, y) {
      var rest :| GuardedChain(w, rest, hops + 1, visited + {y}) && rest[0] == y;
      ChainCons(w, actor, rest, hops, visited);
      assert ([actor] + rest)[0] == actor;
    }
  }

  // ---------------------------------------------------------------------------------------
  // The cycle guard loses no chain
  // ---------------------------------------------------------------------------------------

  /** Nearer the caller a link and a grant need no more than they did further away. */
  lemma NearerIsEasier(w: World, x: Identity, y: Identity, far: nat, near: nat)
    requires near <= far
    ensures Link(w, x, far, y) ==> Link(w, x, near, y)
    ensures Grants(w, x, far) ==> Grants(w, x, near)
  {
    if Link(w, x, far, y) {
      var c, p :| LinksBy(w, x, far, c, p) && c.issuer == y;
      assert LinksBy(w, x, near, c, p);
    }
  }

  /** Cutting a cycle out of a chain leaves a chain. */
  lemma CutCycle(w: World, path: seq<Identity>, i: nat, j: nat)
    requires Chain(w, path, 0)
    requires i < j < |path| && path[i] == path[j]
    ensures Chain(w, path[..i] + path[j..], 0)
  {
    var cut := path[..i] + path[j..];
    forall k | 0 <= k < |cut| - 1 ensures Link(w, cut[k], 0 + k, cut[k + 1]) {
      var m := if k < i then k else k + j - i;
      CutAt(path, i, j, k);
      assert Link(w, path[m], 0 + m, path[m + 1]);
      NearerIsEasier(w, path[m], path[m + 1], m, k);
    }
    NearerIsEasier(w, path[|path| - 1], path[|path| - 1], |path| - 1, |cut| - 1);
  }

  lemma CutAt(path: seq<Identity>, i: nat, j: nat, k: nat)
    requires i < j < |path| && path[i] == path[j] && k < |path| - (j - i) - 1
    ensures
      var cut, m := path[..i] + path[j..], if k < i then k else k + j - i;
      cut[k] == path[m] && cut[k + 1] == path[m + 1]
  {
  }

  lemma {:induction false} SimpleChainExists(w: World, path: seq<Identity>) returns (simple: seq<Identity>)
    requires Chain(w, path, 0)
    ensures Chain(w, simple, 0) && simple[0] == path[0]
    ensures forall i, j :: 0 <= i < j < |simple| ==> simple[i] != simple[j]
    decreases |path|
  {
    if i, j :| 0 <= i < j < |path| && path[i] == path[j] {
      CutCycle(w, path, i, j);
      simple := SimpleChainExists(w, path[..i] + path[j..]);
    } else {
      simple := path;
    }
  }

  /** The guarded walk decides exactly the existence of a chain, cycles allowed. */
  lemma GuardLosesNoChain(w: World, caller: Identity)
    ensures Found(w, caller, 0, {caller}) <==> Authorized(w, caller)
  {
    if Found(w, caller, 0, {caller}) {
      var path :| GuardedChain(w, path, 0, {caller}) && path[0] == caller;
      assert Chain(w, path, 0);
    }
    if Authorized(w, caller) {
      var path :| path != [] && path[0] == caller && Chain(w, path, 0);
      var simple := SimpleChainExists(w, path);
      assert GuardedChain(w, simple, 0, {caller});
    }
  }

  // ---------------------------------------------------------------------------------------
  // The walk
  // ---------------------------------------------------------------------------------------

  class Action {
    var actor: Identity

    constructor (actor: Identity)
      ensures this.actor == actor
    {
      this.actor := actor;
    }
  }

  class Visited {
    var ids: set<Identity>

    constructor (first: Identity)
      ensures ids == {first}
    {
      ids := {first};
    }
  }

  method AuthorizeHandlers(w: World, action: Action, hopsBelow: nat) returns (allowed: bool)
    ensures allowed <==> HandlerAllows(w, action.actor, hopsBelow)
  {
    for i := 0 to |w.handlers|
      invariant forall k :: 0 <= k < i ==>
        !((w.handlers[k].nodeLocal ==> hopsBelow == 0) && w.handlers[k].allows(action.actor))
    {
      var h := w.handlers[i];
      if h.nodeLocal && hopsBelow > 0 {
        continue;
      }
      if h.allows(action.actor) {
        return true;
      }
    }
    return false;
  }

  /** A chain goes on through permit `p` of contract `c`. */
  ghost predicate Opens(w: World, actor: Identity, hops: nat, visited: set<Identity>, c: Contract, p: Permit) {
    && c.issuer !in visited
    && Usable(w, p, actor, hops)
    && Found(w, c.issuer, hops + 1, visited + {c.issuer})
  }

  ghost predicate NoneOpens(w: World, actor: Identity, hops: nat, visited: set<Identity>, c: Contract) {
    forall p :: p in c.HasPermit(w.actionType) ==> !Opens(w, actor, hops, visited, c, p)
  }

  lemma OpensIsOnward(w: World, actor: Identity, hops: nat, seen: set<Identity>, c: Contract, p: Permit)
    requires actor !in w.lookupFails && c in Find(w, actor) && p in c.HasPermit(w.actionType)
    requires Opens(w, actor, hops, seen, c, p)
    ensures Found(w, actor, hops, seen)
  {
    assert LinksBy(w, actor, hops, c, p);
    assert Onward(w, actor, hops, seen, c.issuer);
    FoundUnfolds(w, actor, hops, seen);
  }

  /** When no contract opens a chain, only the level's own authority is left. */
  lemma NoLinkLeft(w: World, actor: Identity, hops: nat, seen: set<Identity>)
    requires actor in w.lookupFails || forall c :: c in Find(w, actor) ==> NoneOpens(w, actor, hops, seen, c)
    ensures Found(w, actor, hops, seen) <==> Grants(w, actor, hops)
  {
    FoundUnfolds(w, actor, hops, seen);
    forall y ensures !Onward(w, actor, hops, seen, y) {
      if y !in seen && Link(w, actor, hops, y) {
        var c, p :| LinksBy(w, actor, hops, c, p) && c.issuer == y;
        assert NoneOpens(w, actor, hops, seen, c) && !Opens(w, actor, hops, seen, c, p);
      }
    }
  }

  lemma FewerLeft(w: World, visited: set<Identity>, c: Contract)
    requires c in w.contracts && c.issuer !in visited
    ensures |Issuers(w) - (visited + {c.issuer})| < |Issuers(w) - visited|
  {
    assert Issuers(w) - visited == (Issuers(w) - (visited + {c.issuer})) + {c.issuer};
  }

  /** One level of the walk; it leaves the actor and the visited set as it found them. */
  method Walk(w: World, action: Action, hopsBelow: nat, visited: Visited) returns (allowed: bool)
    modifies action, visited
    ensures allowed <==> Found(w, old(action.actor), hopsBelow, old(visited.ids))
    ensures action.actor == old(action.actor)
    ensures visited.ids == old(visited.ids)
    decreases |Issuers(w) - visited.ids|, 1
  {
    var actor := action.actor;
    ghost var seen := visited.ids;
    var handled := AuthorizeHandlers(w, action, hopsBelow);
    if handled {
      FoundUnfolds(w, actor, hopsBelow, seen);
      return true;
    }
    if actor in w.lookupFails {
      NoLinkLeft(w, actor, hopsBelow, seen);
      return false;
    }

    var contracts := Find(w, actor);
    for i := 0 to |contracts|
      invariant action.actor == actor && visited.ids == seen
      invariant forall k :: 0 <= k < i ==> NoneOpens(w, actor, hopsBelow, seen, contracts[k])
    {
      if contracts[i].issuer in visited.ids {
        continue;
      }
      var deeper := WalkContract(w, action, hopsBelow, visited, contracts[i]);
      if deeper {
        return true;
      }
    }
    NoLinkLeft(w, actor, hopsBelow, seen);
    return ExternalAllows(w, actor);
  }

  /** The permits of one contract, in order: re-enter as its issuer, restore on the way out. */
  method WalkContract(w: World, action: Action, hopsBelow: nat, visited: Visited, sc: Contract) returns (allowed: bool)
    requires action.actor !in w.lookupFails && sc in Find(w, action.actor) && sc.issuer !in visited.ids
    modifies action, visited
    ensures allowed ==> Found(w, old(action.actor), hopsBelow, old(visited.ids))
    ensures !allowed ==> NoneOpens(w, old(action.actor), hopsBelow, old(visited.ids), sc)
    ensures action.actor == old(action.actor)
    ensures visited.ids == old(visited.ids)
    decreases |Issuers(w) - visited.ids|, 0
  {
    var actor := action.actor;
    ghost var seen := visited.ids;
    FewerLeft(w, seen, sc);
    var permits := sc.HasPermit(w.actionType);
    for j := 0 to |permits|
      invariant action.actor == actor && visited.ids == seen
      invariant forall k :: 0 <= k < j ==> !Opens(w, actor, hopsBelow, seen, sc, permits[k])
    {
      var p := permits[j];
      if p.delegation < hopsBelow || !w.constraint(p, actor) {
        continue;
      }
      visited.ids := visited.ids + {sc.issuer};
      action.actor := sc.issuer;
      allowed := Walk(w, action, hopsBelow + 1, visited);
      action.actor := actor;
      visited.ids := visited.ids - {sc.issuer};
      if allowed {
        OpensIsOnward(w, actor, hopsBelow, seen, sc, p);
        return;
      }
    }
    allowed := false;
  }

  // ---------------------------------------------------------------------------------------
  // What a decision means, in terms of the contracts, handlers and authorities alone
  // ---------------------------------------------------------------------------------------

  /** An active contract for `actor` with a permit for the action, good for `hops` links below it and met in full. */
  ghost predicate Carries(w: World, c: Contract, p: Permit, actor: Identity, hops: nat) {
    && c in w.contracts && c.startsAt <= w.now < c.expiresAt && (actor == 0 || c.subject == actor)
    && p in c.permits && p.action == w.actionType && p.delegation >= hops && w.constraint(p, actor)
  }

  /** The authority assigned to the actor decides if there is one, and otherwise the one for the action. */
  ghost predicate AuthorityAllows(w: World, actor: Identity) {
    var own := w.actionType + "/" + w.name(actor);
    if actor != 0 && own in w.externals then w.externals[own](actor)
    else if w.actionType in w.externals then w.externals[w.actionType](actor)
    else false
  }

  /** A contract of `issuer` hands the action down to `actor`, the `hops`-th identity from the caller. */
  ghost predicate HandsDown(w: World, issuer: Identity, actor: Identity, hops: nat) {
    actor !in w.lookupFails && exists c, p :: Carries(w, c, p, actor, hops) && c.issuer == issuer
  }

  /** A handler or an authority answers for `actor`; a node-local handler only if it is the caller. */
  ghost predicate Answers(w: World, actor: Identity, isCaller: bool) {
    || (exists h :: h in w.handlers && (h.nodeLocal ==> isCaller) && h.allows(actor))
    || (actor !in w.lookupFails && AuthorityAllows(w, actor))
  }

  /** Each identity on the path has the action from the next one, and the last is answered for. */
  ghost predicate Delegated(w: World, path: seq<Identity>) {
    && path != []
    && (forall i :: 0 <= i < |path| - 1 ==> HandsDown(w, path[i + 1], path[i], i))
    && Answers(w, path[|path| - 1], |path| == 1)
  }

  lemma LinkMeans(w: World, actor: Identity, hops: nat, issuer: Identity)
    ensures Link(w, actor, hops, issuer) <==> HandsDown(w, issuer, actor, hops)
  {
    forall c, p ensures LinksBy(w, actor, hops, c, p) <==> Carries(w, c, p, actor, hops) {
      PermitsOrigin(c.permits, w.actionType, p);
      assert p in c.HasPermit(w.actionType) ==> c.HasPermit(w.actionType) != [];
    }
    if c, p :| Carries(w, c, p, actor, hops) && c.issuer == issuer {
      assert LinksBy(w, actor, hops, c, p);
    }
    if c, p :| LinksBy(w, actor, hops, c, p) && c.issuer == issuer {
      assert Carries(w, c, p, actor, hops);
    }
  }

  lemma GrantMeans(w: World, actor: Identity, hops: nat)
    ensures Grants(w, actor, hops) <==> Answers(w, actor, hops == 0)
  {
  }

  lemma ChainMeans(w: World, path: seq<Identity>)
    ensures Chain(w, path, 0) <==> Delegated(w, path)
  {
    forall i | 0 <= i < |path| - 1
      ensures Link(w, path[i], 0 + i, path[i + 1]) <==> HandsDown(w, path[i + 1], path[i], i)
    {
      LinkMeans(w, path[i], i, path[i + 1]);
    }
    if path != [] {
      GrantMeans(w, path[|path| - 1], 0 + |path| - 1);
    }
  }

  /** Whether the answer for a caller is yes. */
  ghost predicate Allowed(w: World, caller: Identity) {
    caller != 0 && exists path :: Delegated(w, path) && path[0] == caller
  }

  lemma AuthorizedMeans(w: World, caller: Identity)
    requires caller != 0
    ensures Authorized(w, caller) <==> Allowed(w, caller)
  {
    if Authorized(w, caller) {
      var path :| path != [] && path[0] == caller && Chain(w, path, 0);
      ChainMeans(w, path);
      assert Delegated(w, path) && path[0] == caller;
    }
    if path :| Delegated(w, path) && path[0] == caller {
      ChainMeans(w, path);
    }
  }

  /** A nonzero actor is allowed exactly when a chain of contracts carries some grant down to it. */
  method Authorize(w: World, action: Action) returns (allowed: bool)
    modifies action
    ensures allowed <==> Allowed(w, action.actor)
    ensures action.actor == old(action.actor)
  {
    if action.actor == ANYONE {
      return false;
    }
    var visited := new Visited(action.actor);
    allowed := Walk(w, action, 0, visited);
    GuardLosesNoChain(w, action.actor);
    AuthorizedMeans(w, action.actor);
  }

  // ---------------------------------------------------------------------------------------
  // External authorities
  // ---------------------------------------------------------------------------------------

  /** Nothing but an external authority can answer for the caller. */
  ghost predicate OnItsOwn(w: World, caller: Identity) {
    caller != 0 && w.handlers == [] && w.contracts == [] && caller !in w.lookupFails
  }

  lemma OnItsOwnMeans(w: World, caller: Identity)
    requires OnItsOwn(w, caller)
    ensures Allowed(w, caller) <==> AuthorityAllows(w, caller)
  {
    assert [caller][0] == caller && (AuthorityAllows(w, caller) ==> Delegated(w, [caller]));
    forall path | Delegated(w, path) && path[0] == caller ensures AuthorityAllows(w, caller) {
      if |path| > 1 {
        SomeContract(w, path);
      }
    }
  }

  lemma SomeContract(w: World, path: seq<Identity>)
    requires Delegated(w, path) && |path| > 1
    ensures w.contracts != []
  {
    assert HandsDown(w, path[0 + 1], path[0], 0);
    var c, p :| Carries(w, c, p, path[0], 0);
    assert c in w.contracts;
  }

  /** The caller's own authority alone decides: whatever is assigned to the whole action changes nothing. */
  lemma OwnAuthorityDecides(w: World, caller: Identity, wide: Identity -> bool)
    requires OnItsOwn(w, caller) && w.actionType + "/" + w.name(caller) in w.externals
    ensures Allowed(w, caller) <==> w.externals[w.actionType + "/" + w.name(caller)](caller)
    ensures Allowed(w.(externals := w.externals[w.actionType := wide]), caller) <==> Allowed(w, caller)
    ensures Allowed(w.(externals := w.externals - {w.actionType}), caller) <==> Allowed(w, caller)
  {
    var own := w.actionType + "/" + w.name(caller);
    assert |own| > |w.actionType|;
    OnItsOwnMeans(w, caller);
    OnItsOwnMeans(w.(externals := w.externals[w.actionType := wide]), caller);
    OnItsOwnMeans(w.(externals := w.externals - {w.actionType}), caller);
  }

  /** Without one the authority of the whole action decides, and without that the answer is no. */
  lemma WideAuthorityDecides(w: World, caller: Identity)
    requires OnItsOwn(w, caller) && w.actionType + "/" + w.name(caller) !in w.externals
    ensures Allowed(w, caller) <==> w.actionType in w.externals && w.externals[w.actionType](caller)
  {
    OnItsOwnMeans(w, caller);
  }

  /** An authority assigned to another identity changes nothing for the caller. */
  lemma OthersAuthorityIsIrrelevant(w: World, caller: Identity, other: Identity, theirs: Identity -> bool)
    requires OnItsOwn(w, caller) && w.name(other) != w.name(caller)
    ensures
      var key := w.actionType + "/" + w.name(other);
      && (Allowed(w.(externals := w.externals[key := theirs]), caller) <==> Allowed(w, caller))
      && (Allowed(w.(externals := w.externals - {key}), caller) <==> Allowed(w, caller))
  {
    var own, key := w.actionType + "/" + w.name(caller), w.actionType + "/" + w.name(other);
    assert own[|w.actionType| + 1..] == w.name(caller) && key[|w.actionType| + 1..] == w.name(other);
    assert |key| > |w.actionType|;
    OnItsOwnMeans(w, caller);
    OnItsOwnMeans(w.(externals := w.externals[key := theirs]), caller);
    OnItsOwnMeans(w.(externals := w.externals - {key}), caller);
  }
}
