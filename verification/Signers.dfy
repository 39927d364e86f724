/** App signers: who may sign for a pair of key and scheme. */
module Signers {
  import opened Bytes

  const SECP256K1: string := "secp256k1"
  const BIP137: string := "bip137"
  const ASN1: string := "asn1"
  const COMPRESSED_KEY_LENGTH: nat := 33

  datatype PublicKey = PublicKey(keyType: string, key: ByteString)

  datatype SignerKey = SignerKey(key: Option<PublicKey>, scheme: string)

  datatype Claim = Claim(keyType: string, key: ByteString, scheme: string)

  function ClaimOf(key: PublicKey, scheme: string): Claim {
    Claim(key.keyType, key.key, scheme)
  }

  // ---------------------------------------------------------------------------------------
  // Checking a claimed set
  // ---------------------------------------------------------------------------------------

  /** One entry may be claimed; `parses` stands for the curve's key parser. */
  predicate KeyAllowed(entry: Option<SignerKey>, nodeKey: ByteString, parses: ByteString -> bool) {
    && entry.Some? && entry.value.key.Some?
    && entry.value.key.value.keyType == SECP256K1
    && (entry.value.scheme == BIP137 || entry.value.scheme == ASN1)
    && |entry.value.key.value.key| == COMPRESSED_KEY_LENGTH
    && parses(entry.value.key.value.key)
    && entry.value.key.value.key != nodeKey
  }

  /** A claim that may be made: a parsable compressed secp256k1 key, not the node's, for one of the two schemes. */
  ghost predicate Claimable(c: Claim, nodeKey: ByteString, parses: ByteString -> bool) {
    && c.keyType == "secp256k1" && c.scheme in {"bip137", "asn1"}
    && |c.key| == 33 && parses(c.key) && c.key != nodeKey
  }

  /** A claim says which key and which scheme, and nothing else does. */
  lemma ClaimIsPair(key: PublicKey, scheme: string, key': PublicKey, scheme': string)
    ensures ClaimOf(key, scheme) == ClaimOf(key', scheme') <==> key == key' && scheme == scheme'
  {
  }

  ghost predicate Names(entry: Option<SignerKey>) {
    entry.Some? && entry.value.key.Some?
  }

  /** The claim an entry makes. */
  ghost function Named(entry: Option<SignerKey>): Claim
    requires Names(entry)
  {
    var key := entry.value.key.value;
    Claim(key.keyType, key.key, entry.value.scheme)
  }

  ghost predicate Distinct<T>(s: seq<T>) {
    forall i, j :: 0 <= i < j < |s| ==> s[i] != s[j]
  }

  /** A set is accepted exactly if its size, every entry and their distinctness allow it; its pairs are the entries'. */
  method CheckSignerKeys(keys: seq<Option<SignerKey>>, maxKeys: nat, nodeKey: ByteString, parses: ByteString -> bool)
    returns (pairs: Option<seq<Claim>>)
    ensures pairs.Some? <==>
      && 0 < |keys| <= maxKeys
      && (forall i :: 0 <= i < |keys| ==> Names(keys[i]) && Claimable(Named(keys[i]), nodeKey, parses))
      && (forall i, j :: 0 <= i < j < |keys| ==> Named(keys[i]) != Named(keys[j]))
    ensures pairs.Some? ==>
      && |pairs.value| == |keys| && Distinct(pairs.value)
      && forall i :: 0 <= i < |keys| ==> pairs.value[i] == Named(keys[i])
  {
    if |keys| == 0 || |keys| > maxKeys {
      return None;
    }
    var claims: seq<Claim> := [];
    var seen := {};
    for n := 0 to |keys|
      invariant |claims| == n && Distinct(claims) && forall c :: c in seen <==> c in claims
      invariant forall i :: 0 <= i < n ==>
        Names(keys[i]) && Claimable(Named(keys[i]), nodeKey, parses) && claims[i] == Named(keys[i])
    {
      if !KeyAllowed(keys[n], nodeKey, parses) {
        return None;
      }
      var pair := ClaimOf(keys[n].value.key.value, keys[n].value.scheme);
      if pair in seen {
        assert exists i :: 0 <= i < n && claims[i] == pair;
        return None;
      }
      seen := seen + {pair};
      claims := claims + [pair];
    }
    pairs := Some(claims);
  }

  // ---------------------------------------------------------------------------------------
  // The registry
  // ---------------------------------------------------------------------------------------

  predicate Free<B>(claims: map<Claim, B>, pairs: seq<Claim>) {
    forall p :: p in pairs ==> p !in claims
  }

  function Claimed<B>(claims: map<Claim, B>, pairs: seq<Claim>, b: B): map<Claim, B> {
    claims + map p | p in pairs :: b
  }

  function Released<B(==)>(claims: map<Claim, B>, pairs: seq<Claim>, b: B): map<Claim, B> {
    map p | p in claims && !(p in pairs && claims[p] == b) :: claims[p]
  }

  class Binding {
    const pairs: seq<Claim>

    constructor (pairs: seq<Claim>)
      ensures this.pairs == pairs
    {
      this.pairs := pairs;
    }
  }

  class Registry {
    var claims: map<Claim, Binding>

    constructor ()
      ensures claims == map[]
    {
      claims := map[];
    }

    method Claim(b: Binding) returns (ok: bool)
      modifies this
      ensures ok <==> Free(old(claims), b.pairs)
      ensures claims == if ok then Claimed(old(claims), b.pairs, b) else old(claims)
    {
      for i := 0 to |b.pairs|
        invariant forall k :: 0 <= k < i ==> b.pairs[k] !in claims
        invariant claims == old(claims)
      {
        if b.pairs[i] in claims {
          return false;
        }
      }
      for i := 0 to |b.pairs|
        invariant claims == Claimed(old(claims), b.pairs[..i], b)
      {
        TakeOneMore(b.pairs, i);
        claims := claims[b.pairs[i] := b];
      }
      assert b.pairs[..|b.pairs|] == b.pairs;
      ok := true;
    }

    method Release(b: Binding)
      modifies this
      ensures claims == Released(old(claims), b.pairs, b)
    {
      for i := 0 to |b.pairs|
        invariant claims == Released(old(claims), b.pairs[..i], b)
      {
        TakeOneMore(b.pairs, i);
        if b.pairs[i] in claims && claims[b.pairs[i]] == b {
          claims := claims - {b.pairs[i]};
        }
      }
      assert b.pairs[..|b.pairs|] == b.pairs;
    }

    method Find(key: Option<PublicKey>, scheme: string) returns (b: Option<Binding>)
      ensures b.Some? <==> key.Some? && ClaimOf(key.value, scheme) in claims
      ensures b.Some? ==> claims[ClaimOf(key.value, scheme)] == b.value
    {
      if key.None? || ClaimOf(key.value, scheme) !in claims {
        return None;
      }
      b := Some(claims[ClaimOf(key.value, scheme)]);
    }
  }
}

/** Requests and answers between callers and signer bindings, over all interleavings of their steps. */
module Signing {
  import opened Bytes
  import opened Signers

  type Nonce = nat

  datatype Signature = Signature(scheme: string, data: ByteString)

  /** The app's answer to one request. */
  datatype Answer = Answer(id: Nonce, signature: Option<Signature>, error: string)

  /** What a caller wants signed. */
  datatype Request = Request(key: PublicKey, scheme: string, content: ByteString)

  /** Whether a signature verifies for a key and a content. */
  type Verifier = (PublicKey, ByteString, Signature) -> bool

  /**
   A binding: its pairs, how far its operation got, the requests waiting, and the answer its reader is handing
   over.
   */
  datatype BindingState = BindingState(pairs: seq<Claim>, stage: Stage, closed: bool,
                                       pending: map<Nonce, nat>, inHand: Option<(Answer, nat)>)

  datatype Stage = Unclaimed | Admitted | Over

  datatype Phase = Finding | Waiting | Taken | Failed | Returned(signature: Signature) | Refused

  /** One ask: its binding, its ID once recorded, its one-place reply buffer and the answers it took. */
  datatype AskState = AskState(binding: nat, request: Request, id: Option<Nonce>, buffer: Option<Answer>,
                               taken: seq<Answer>, deleted: bool, phase: Phase)

  datatype State = State(claims: map<Claim, nat>, bindings: seq<BindingState>, asks: seq<AskState>)

  datatype Event =
    | Register(pairs: seq<Claim>)
    | TryClaim(b: nat)
    | Release(b: nat)
    | Close(b: nat)
    | Ask(request: Request)
    | AddPending(a: nat, id: Nonce)
    | Lookup(b: nat, answer: Answer)
    | Hand(b: nat)
    | Take(a: nat)
    | Gone(a: nat)
    | Timeout(a: nat)
    | Delete(a: nat)
    | Check(a: nat)

  /** An answer carries exactly one of a signature and an error; any other ends the binding. */
  predicate WellFormed(answer: Answer) {
    answer.signature.None? != (answer.error == "")
  }

  /** A draw of request IDs that are neither zero nor waiting. */
  method NewRequestID(pending: map<Nonce, nat>, draws: seq<Nonce>) returns (id: Option<Nonce>)
    ensures id.Some? ==> id.value != 0 && id.value !in pending && id.value in draws
    ensures id.None? ==> forall d :: d in draws ==> d == 0 || d in pending
  {
    for i := 0 to |draws|
      invariant forall k :: 0 <= k < i ==> draws[k] == 0 || draws[k] in pending
    {
      if draws[i] != 0 && draws[i] !in pending {
        return Some(draws[i]);
      }
    }
    id := None;
  }

  /** The signature an ask may return for the answer it took. */
  function Signed(verify: Verifier, request: Request, answer: Answer): (r: Option<Signature>)
    ensures r.Some? <==>
      && answer.signature.Some? && verify(request.key, request.content, answer.signature.value)
      && answer.signature.value.scheme == request.scheme
    ensures r.Some? ==> r == answer.signature
  {
    if answer.signature.None? then None
    else
      var signature := answer.signature.value;
      if verify(request.key, request.content, signature) && signature.scheme == request.scheme then Some(signature)
      else None
  }

  ghost predicate Enabled(s: State, e: Event) {
    match e
    case Register(pairs) => Distinct(pairs)
    case TryClaim(b) => b < |s.bindings| && s.bindings[b].stage == Unclaimed && !s.bindings[b].closed
    case Release(b) => b < |s.bindings| && s.bindings[b].stage == Admitted && s.bindings[b].inHand.None?
    case Close(b) => b < |s.bindings|
    case Ask(request) => ClaimOf(request.key, request.scheme) in s.claims
    case AddPending(a, id) =>
      && a < |s.asks| && s.asks[a].phase == Finding && s.asks[a].binding < |s.bindings|
      && id != 0 && id !in s.bindings[s.asks[a].binding].pending
    case Lookup(b, answer) =>
      b < |s.bindings| && s.bindings[b].stage == Admitted && s.bindings[b].inHand.None?
    case Hand(b) => b < |s.bindings| && s.bindings[b].inHand.Some? && s.bindings[b].inHand.value.1 < |s.asks|
    case Take(a) => a < |s.asks| && s.asks[a].phase == Waiting && s.asks[a].buffer.Some?
    case Gone(a) =>
      && a < |s.asks| && s.asks[a].phase == Waiting
      && s.asks[a].binding < |s.bindings| && s.bindings[s.asks[a].binding].closed
    case Timeout(a) => a < |s.asks| && s.asks[a].phase == Waiting
    case Delete(a) =>
      && a < |s.asks| && s.asks[a].id.Some? && s.asks[a].phase != Waiting && !s.asks[a].deleted
      && s.asks[a].binding < |s.bindings|
    case Check(a) =>
      && a < |s.asks| && s.asks[a].phase == Taken && s.asks[a].deleted && s.asks[a].taken != []
      && s.asks[a].binding < |s.bindings|
  }

  ghost function Next(verify: Verifier, s: State, e: Event): State
    requires Enabled(s, e)
  {
    match e
    case Register(pairs) => s.(bindings := s.bindings + [BindingState(pairs, Unclaimed, false, map[], None)])
    case TryClaim(b) =>
      var pairs := s.bindings[b].pairs;
      if Free(s.claims, pairs)
        then State(Claimed(s.claims, pairs, b), s.bindings[b := s.bindings[b].(stage := Admitted)], s.asks)
      else WithBinding(s, b, s.bindings[b].(closed := true))
    case Release(b) =>
      State(Released(s.claims, s.bindings[b].pairs, b), s.bindings[b := s.bindings[b].(stage := Over)], s.asks)
    case Close(b) => WithBinding(s, b, s.bindings[b].(closed := true))
    case Ask(request) =>
      var b := s.claims[ClaimOf(request.key, request.scheme)];
      s.(asks := s.asks + [AskState(b, request, None, None, [], false, Finding)])
    case AddPending(a, id) =>
      var b := s.asks[a].binding;
      State(s.claims, s.bindings[b := s.bindings[b].(pending := s.bindings[b].pending[id := a])],
            s.asks[a := s.asks[a].(id := Some(id), phase := Waiting)])
    case Lookup(b, answer) =>
      if !WellFormed(answer) then WithBinding(s, b, s.bindings[b].(closed := true))
      else if answer.id in s.bindings[b].pending
        then WithBinding(s, b, s.bindings[b].(inHand := Some((answer, s.bindings[b].pending[answer.id]))))
      else s
    case Hand(b) =>
      var (answer, a) := s.bindings[b].inHand.value;
      var s' := WithBinding(s, b, s.bindings[b].(inHand := None));
      if s.asks[a].buffer.None? then WithAsk(s', a, s.asks[a].(buffer := Some(answer))) else s'
    case Take(a) =>
      var ask := s.asks[a];
      WithAsk(s, a, ask.(buffer := None, taken := ask.taken + [ask.buffer.value], phase := Taken))
    case Gone(a) => WithAsk(s, a, s.asks[a].(phase := Failed))
    case Timeout(a) => WithAsk(s, a, s.asks[a].(phase := Failed))
    case Delete(a) =>
      var b := s.asks[a].binding;
      State(s.claims, s.bindings[b := s.bindings[b].(pending := s.bindings[b].pending - {s.asks[a].id.value})],
            s.asks[a := s.asks[a].(deleted := true)])
    case Check(a) =>
      var answer := s.asks[a].taken[0];
      var signature := Signed(verify, s.asks[a].request, answer);
      if signature.Some? then WithAsk(s, a, s.asks[a].(phase := Returned(signature.value)))
      else if answer.signature.None? then WithAsk(s, a, s.asks[a].(phase := Refused))
      else
        var b := s.asks[a].binding;
        WithBinding(WithAsk(s, a, s.asks[a].(phase := Refused)), b, s.bindings[b].(closed := true))
  }

  ghost function WithBinding(s: State, b: nat, binding: BindingState): State
    requires b < |s.bindings|
  {
    s.(bindings := s.bindings[b := binding])
  }

  ghost function WithAsk(s: State, a: nat, ask: AskState): State
    requires a < |s.asks|
  {
    s.(asks := s.asks[a := ask])
  }

  // ---------------------------------------------------------------------------------------
  // The invariant
  // ---------------------------------------------------------------------------------------

  ghost predicate Live(b: BindingState) {
    b.stage == Admitted
  }

  /** The registry holds exactly the pairs of the live bindings, each under its own binding. */
  ghost predicate RegistryOk(claims: map<Claim, nat>, bindings: seq<BindingState>) {
    && (forall p :: p in claims ==>
          claims[p] < |bindings| && Live(bindings[claims[p]]) && p in bindings[claims[p]].pairs)
    && (forall b :: 0 <= b < |bindings| && Live(bindings[b]) ==> Owns(claims, bindings[b].pairs, b))
  }

  ghost predicate Owns(claims: map<Claim, nat>, pairs: seq<Claim>, b: nat) {
    forall p :: p in pairs ==> p in claims && claims[p] == b
  }

  /** Either a signature or an error. */
  ghost predicate OneOf(answer: Answer) {
    (answer.signature.Some? && answer.error == "") || (answer.signature.None? && answer.error != "")
  }

  /** The ask a binding knows under an ID is an ask of that binding with that ID. */
  ghost predicate IsAsk(asks: seq<AskState>, a: nat, b: nat, id: Nonce) {
    a < |asks| && asks[a].binding == b && asks[a].id == Some(id)
  }

  ghost predicate BindingOk(asks: seq<AskState>, b: nat, binding: BindingState) {
    && (forall id :: id in binding.pending ==>
          IsAsk(asks, binding.pending[id], b, id) && !asks[binding.pending[id]].deleted)
    && (binding.inHand.Some? ==>
          IsAsk(asks, binding.inHand.value.1, b, binding.inHand.value.0.id) && OneOf(binding.inHand.value.0))
  }

  /** An ask's binding holds its pair and, until it is deleted, knows it under its ID. */
  ghost predicate AskKnown(bindings: seq<BindingState>, a: nat, ask: AskState) {
    && ask.binding < |bindings|
    && ClaimOf(ask.request.key, ask.request.scheme) in bindings[ask.binding].pairs
    && (ask.id.Some? && !ask.deleted ==>
      ask.id.value in bindings[ask.binding].pending && bindings[ask.binding].pending[ask.id.value] == a)
  }

  /** An ask takes at most one answer, to its own ID, and returns only what verified. */
  ghost predicate AskOk(verify: Verifier, ask: AskState) {
    && (ask.buffer.Some? ==> ask.id == Some(ask.buffer.value.id) && OneOf(ask.buffer.value))
    && (ask.phase == Finding ==> ask.id.None? && !ask.deleted)
    && (ask.phase == Finding || ask.phase == Waiting || ask.phase == Failed ==> ask.taken == [])
    && (ask.phase == Waiting ==> ask.id.Some? && !ask.deleted)
    && |ask.taken| <= 1 && (ask.phase == Taken ==> ask.taken != [])
    && (ask.taken != [] ==> ask.id == Some(ask.taken[0].id) && OneOf(ask.taken[0]))
    && (ask.phase.Returned? ==>
          ask.taken != [] && Signed(verify, ask.request, ask.taken[0]) == Some(ask.phase.signature))
  }

  ghost predicate Inv(verify: Verifier, s: State) {
    && RegistryOk(s.claims, s.bindings)
    && (forall b :: 0 <= b < |s.bindings| ==> BindingOk(s.asks, b, s.bindings[b]))
    && (forall a :: 0 <= a < |s.asks| ==> AskKnown(s.bindings, a, s.asks[a]))
    && (forall a :: 0 <= a < |s.asks| ==> AskOk(verify, s.asks[a]))
  }

  // ---------------------------------------------------------------------------------------
  // Every step keeps it
  // ---------------------------------------------------------------------------------------

  /** An ask moves on without changing who it is. */
  lemma AskMoves(verify: Verifier, s: State, a: nat, ask: AskState)
    requires Inv(verify, s) && a < |s.asks| && AskOk(verify, ask)
    requires ask.binding == s.asks[a].binding && ask.request == s.asks[a].request
    requires ask.id == s.asks[a].id && ask.deleted == s.asks[a].deleted
    ensures Inv(verify, WithAsk(s, a, ask))
  {
    var s' := WithAsk(s, a, ask);
    forall b | 0 <= b < |s'.bindings| ensures BindingOk(s'.asks, b, s'.bindings[b]) {
      assert BindingOk(s.asks, b, s.bindings[b]);
    }
    forall c | 0 <= c < |s'.asks| ensures AskKnown(s'.bindings, c, s'.asks[c]) {
      assert AskKnown(s.bindings, c, s.asks[c]);
    }
  }

  /** A binding moves on without changing its pairs, its claims or the requests waiting. */
  lemma BindingMoves(verify: Verifier, s: State, b: nat, binding: BindingState)
    requires Inv(verify, s) && b < |s.bindings| && BindingOk(s.asks, b, binding)
    requires binding.pairs == s.bindings[b].pairs && Live(binding) == Live(s.bindings[b])
    requires binding.pending == s.bindings[b].pending
    ensures Inv(verify, WithBinding(s, b, binding))
  {
    var s' := WithBinding(s, b, binding);
    SameRegistry(s.claims, s.bindings, s'.bindings);
    forall c | 0 <= c < |s'.asks| ensures AskKnown(s'.bindings, c, s'.asks[c]) {
      assert AskKnown(s.bindings, c, s.asks[c]);
    }
  }

  /** Nothing the registry looks at changed. */
  ghost predicate SameClaims(bindings: seq<BindingState>, bindings': seq<BindingState>) {
    |bindings'| == |bindings| && forall b :: 0 <= b < |bindings| ==>
      bindings'[b].pairs == bindings[b].pairs && Live(bindings'[b]) == Live(bindings[b])
  }

  lemma SameRegistry(claims: map<Claim, nat>, bindings: seq<BindingState>, bindings': seq<BindingState>)
    requires RegistryOk(claims, bindings) && SameClaims(bindings, bindings')
    ensures RegistryOk(claims, bindings')
  {
  }

  /** A change of registry and stages leaves requests and answers alone. */
  lemma StagesMove(verify: Verifier, s: State, s': State)
    requires Inv(verify, s) && s'.asks == s.asks && |s'.bindings| == |s.bindings| && RegistryOk(s'.claims, s'.bindings)
    requires forall b :: 0 <= b < |s.bindings| ==> s'.bindings[b] == s.bindings[b].(stage := s'.bindings[b].stage)
    ensures Inv(verify, s')
  {
    forall b | 0 <= b < |s'.bindings| ensures BindingOk(s'.asks, b, s'.bindings[b]) {
      assert BindingOk(s.asks, b, s.bindings[b]);
    }
    forall a | 0 <= a < |s'.asks| ensures AskKnown(s'.bindings, a, s'.asks[a]) {
      assert AskKnown(s.bindings, a, s.asks[a]);
    }
  }

  lemma ClaimKeeps(claims: map<Claim, nat>, bindings: seq<BindingState>, b: nat)
    requires RegistryOk(claims, bindings) && b < |bindings| && bindings[b].stage == Unclaimed
    requires Free(claims, bindings[b].pairs)
    ensures RegistryOk(Claimed(claims, bindings[b].pairs, b), bindings[b := bindings[b].(stage := Admitted)])
  {
    var claims', bindings' := Claimed(claims, bindings[b].pairs, b), bindings[b := bindings[b].(stage := Admitted)];
    forall c | 0 <= c < |bindings'| && Live(bindings'[c]) ensures Owns(claims', bindings'[c].pairs, c) {
      if c != b {
        assert Owns(claims, bindings[c].pairs, c);
      }
    }
  }

  lemma ReleaseKeeps(claims: map<Claim, nat>, bindings: seq<BindingState>, b: nat)
    requires RegistryOk(claims, bindings) && b < |bindings| && Live(bindings[b])
    ensures RegistryOk(Released(claims, bindings[b].pairs, b), bindings[b := bindings[b].(stage := Over)])
  {
    var claims', bindings' := Released(claims, bindings[b].pairs, b), bindings[b := bindings[b].(stage := Over)];
    forall c | 0 <= c < |bindings'| && Live(bindings'[c]) ensures Owns(claims', bindings'[c].pairs, c) {
      assert Owns(claims, bindings[c].pairs, c);
    }
  }

  lemma RegisterKeeps(verify: Verifier, s: State, pairs: seq<Claim>)
    requires Inv(verify, s) && Distinct(pairs)
    ensures Inv(verify, Next(verify, s, Register(pairs)))
  {
    var s' := Next(verify, s, Register(pairs));
    forall b | 0 <= b < |s'.bindings| && Live(s'.bindings[b]) ensures Owns(s.claims, s'.bindings[b].pairs, b) {
      assert s'.bindings[b] == s.bindings[b];
    }
    forall a | 0 <= a < |s'.asks| ensures AskKnown(s'.bindings, a, s'.asks[a]) {
      assert AskKnown(s.bindings, a, s.asks[a]);
    }
  }

  lemma AskKeeps(verify: Verifier, s: State, request: Request)
    requires Inv(verify, s) && Enabled(s, Ask(request))
    ensures Inv(verify, Next(verify, s, Ask(request)))
  {
    var s' := Next(verify, s, Ask(request));
    forall b | 0 <= b < |s'.bindings| ensures BindingOk(s'.asks, b, s'.bindings[b]) {
      assert BindingOk(s.asks, b, s.bindings[b]);
    }
    forall a | 0 <= a < |s'.asks| ensures AskKnown(s'.bindings, a, s'.asks[a]) {
      assert a < |s.asks| ==> AskKnown(s.bindings, a, s.asks[a]);
    }
  }

  lemma AddPendingBindings(verify: Verifier, s: State, a: nat, id: Nonce)
    requires Inv(verify, s) && Enabled(s, AddPending(a, id))
    ensures var s' := Next(verify, s, AddPending(a, id));
      && SameClaims(s.bindings, s'.bindings)
      && forall b :: 0 <= b < |s'.bindings| ==> BindingOk(s'.asks, b, s'.bindings[b])
  {
    var s' := Next(verify, s, AddPending(a, id));
    assert AskOk(verify, s.asks[a]) && AskKnown(s.bindings, a, s.asks[a]);
    forall b | 0 <= b < |s'.bindings| ensures BindingOk(s'.asks, b, s'.bindings[b]) {
      assert BindingOk(s.asks, b, s.bindings[b]);
    }
  }

  lemma AddPendingAsk(verify: Verifier, s: State, a: nat, id: Nonce, c: nat)
    requires Inv(verify, s) && Enabled(s, AddPending(a, id)) && c < |s.asks|
    ensures
      var s' := Next(verify, s, AddPending(a, id));
      AskKnown(s'.bindings, c, s'.asks[c]) && AskOk(verify, s'.asks[c])
  {
    assert AskOk(verify, s.asks[a]) && AskKnown(s.bindings, a, s.asks[a]);
    assert AskOk(verify, s.asks[c]) && AskKnown(s.bindings, c, s.asks[c]);
  }

  lemma AddPendingKeeps(verify: Verifier, s: State, a: nat, id: Nonce)
    requires Inv(verify, s) && Enabled(s, AddPending(a, id))
    ensures Inv(verify, Next(verify, s, AddPending(a, id)))
  {
    var s' := Next(verify, s, AddPending(a, id));
    AddPendingBindings(verify, s, a, id);
    SameRegistry(s.claims, s.bindings, s'.bindings);
    forall c | 0 <= c < |s'.asks| ensures AskKnown(s'.bindings, c, s'.asks[c]) && AskOk(verify, s'.asks[c]) {
      AddPendingAsk(verify, s, a, id, c);
    }
  }

  lemma DeleteBindings(verify: Verifier, s: State, a: nat)
    requires Inv(verify, s) && Enabled(s, Delete(a))
    ensures var s' := Next(verify, s, Delete(a));
      && SameClaims(s.bindings, s'.bindings)
      && forall b :: 0 <= b < |s'.bindings| ==> BindingOk(s'.asks, b, s'.bindings[b])
  {
    var s' := Next(verify, s, Delete(a));
    assert AskKnown(s.bindings, a, s.asks[a]);
    forall b | 0 <= b < |s'.bindings| ensures BindingOk(s'.asks, b, s'.bindings[b]) {
      assert BindingOk(s.asks, b, s.bindings[b]);
      DeleteBinding(verify, s, a, b);
    }
  }

  lemma DeleteBinding(verify: Verifier, s: State, a: nat, b: nat)
    requires Enabled(s, Delete(a)) && b < |s.bindings| && BindingOk(s.asks, b, s.bindings[b])
    ensures var s' := Next(verify, s, Delete(a)); BindingOk(s'.asks, b, s'.bindings[b])
  {
    assert forall id :: id in s.bindings[b].pending && s.bindings[b].pending[id] == a ==>
      s.asks[a].binding == b && s.asks[a].id == Some(id);
  }

  lemma DeleteAsk(verify: Verifier, s: State, a: nat, c: nat)
    requires Inv(verify, s) && Enabled(s, Delete(a)) && c < |s.asks|
    ensures var s' := Next(verify, s, Delete(a)); AskKnown(s'.bindings, c, s'.asks[c]) && AskOk(verify, s'.asks[c])
  {
    assert AskOk(verify, s.asks[a]) && AskKnown(s.bindings, a, s.asks[a]);
    assert AskOk(verify, s.asks[c]) && AskKnown(s.bindings, c, s.asks[c]);
  }

  lemma DeleteKeeps(verify: Verifier, s: State, a: nat)
    requires Inv(verify, s) && Enabled(s, Delete(a))
    ensures Inv(verify, Next(verify, s, Delete(a)))
  {
    var s' := Next(verify, s, Delete(a));
    DeleteBindings(verify, s, a);
    SameRegistry(s.claims, s.bindings, s'.bindings);
    forall c | 0 <= c < |s'.asks| ensures AskKnown(s'.bindings, c, s'.asks[c]) && AskOk(verify, s'.asks[c]) {
      DeleteAsk(verify, s, a, c);
    }
  }

  lemma HandKeeps(verify: Verifier, s: State, b: nat)
    requires Inv(verify, s) && Enabled(s, Hand(b))
    ensures Inv(verify, Next(verify, s, Hand(b)))
  {
    var (answer, a) := s.bindings[b].inHand.value;
    var s' := WithBinding(s, b, s.bindings[b].(inHand := None));
    assert BindingOk(s.asks, b, s.bindings[b]) && AskOk(verify, s.asks[a]);
    BindingMoves(verify, s, b, s.bindings[b].(inHand := None));
    if s.asks[a].buffer.None? {
      AskMoves(verify, s', a, s.asks[a].(buffer := Some(answer)));
    }
  }

  lemma CheckKeeps(verify: Verifier, s: State, a: nat)
    requires Inv(verify, s) && Enabled(s, Check(a))
    ensures Inv(verify, Next(verify, s, Check(a)))
  {
    var ask := s.asks[a];
    var signature := Signed(verify, ask.request, ask.taken[0]);
    assert AskOk(verify, ask);
    if signature.Some? {
      AskMoves(verify, s, a, ask.(phase := Returned(signature.value)));
    } else {
      AskMoves(verify, s, a, ask.(phase := Refused));
      var s' := WithAsk(s, a, ask.(phase := Refused));
      assert BindingOk(s'.asks, ask.binding, s'.bindings[ask.binding]);
      BindingMoves(verify, s', ask.binding, s.bindings[ask.binding].(closed := true));
    }
  }

  lemma StepKeeps(verify: Verifier, s: State, e: Event)
    requires Inv(verify, s) && Enabled(s, e)
    ensures Inv(verify, Next(verify, s, e))
  {
    match e
    case Register(pairs) => RegisterKeeps(verify, s, pairs);
    case TryClaim(b) =>
      assert BindingOk(s.asks, b, s.bindings[b]);
      if Free(s.claims, s.bindings[b].pairs) {
        ClaimKeeps(s.claims, s.bindings, b);
        StagesMove(verify, s, Next(verify, s, e));
      } else {
        BindingMoves(verify, s, b, s.bindings[b].(closed := true));
      }
    case Release(b) =>
      ReleaseKeeps(s.claims, s.bindings, b);
      StagesMove(verify, s, Next(verify, s, e));
    case Close(b) =>
      assert BindingOk(s.asks, b, s.bindings[b]);
      BindingMoves(verify, s, b, s.bindings[b].(closed := true));
    case Ask(request) => AskKeeps(verify, s, request);
    case AddPending(a, id) => AddPendingKeeps(verify, s, a, id);
    case Lookup(b, answer) =>
      assert BindingOk(s.asks, b, s.bindings[b]);
      if !WellFormed(answer) {
        BindingMoves(verify, s, b, s.bindings[b].(closed := true));
      } else if answer.id in s.bindings[b].pending {
        BindingMoves(verify, s, b, s.bindings[b].(inHand := Some((answer, s.bindings[b].pending[answer.id]))));
      }
    case Hand(b) => HandKeeps(verify, s, b);
    case Take(a) =>
      assert AskOk(verify, s.asks[a]);
      AskMoves(verify, s, a, Next(verify, s, e).asks[a]);
    case Gone(a) =>
      assert AskOk(verify, s.asks[a]);
      AskMoves(verify, s, a, s.asks[a].(phase := Failed));
    case Timeout(a) =>
      assert AskOk(verify, s.asks[a]);
      AskMoves(verify, s, a, s.asks[a].(phase := Failed));
    case Delete(a) => DeleteKeeps(verify, s, a);
    case Check(a) => CheckKeeps(verify, s, a);
  }

  // ---------------------------------------------------------------------------------------
  // What holds in every run
  // ---------------------------------------------------------------------------------------

  const Start: State := State(map[], [], [])

  ghost predicate IsRun(verify: Verifier, s: State, events: seq<Event>, end: State)
    decreases |events|
  {
    if events == [] then end == s
    else Enabled(s, events[0]) && IsRun(verify, Next(verify, s, events[0]), events[1..], end)
  }

  lemma {:induction false} RunKeeps(verify: Verifier, s: State, events: seq<Event>, end: State)
    requires Inv(verify, s) && IsRun(verify, s, events, end)
    ensures Inv(verify, end)
    decreases |events|
  {
    if events != [] {
      StepKeeps(verify, s, events[0]);
      RunKeeps(verify, Next(verify, s, events[0]), events[1..], end);
    }
  }

  /** The registry is exactly the disjoint union of the pairs of the admitted, unreleased bindings. */
  lemma RegistryIsUnion(verify: Verifier, events: seq<Event>, s: State, p: Claim)
    requires IsRun(verify, Start, events, s)
    ensures p in s.claims <==> exists b :: 0 <= b < |s.bindings| && Live(s.bindings[b]) && p in s.bindings[b].pairs
    ensures forall b :: 0 <= b < |s.bindings| && Live(s.bindings[b]) && p in s.bindings[b].pairs ==>
      p in s.claims && s.claims[p] == b
  {
    RunKeeps(verify, Start, events, s);
    if p in s.claims {
      assert Live(s.bindings[s.claims[p]]);
    }
    forall b | 0 <= b < |s.bindings| && Live(s.bindings[b]) ensures Owns(s.claims, s.bindings[b].pairs, b) {}
  }

  /** The invariant at one ask. */
  lemma AskHeld(verify: Verifier, events: seq<Event>, s: State, a: nat)
    requires IsRun(verify, Start, events, s) && a < |s.asks|
    ensures AskKnown(s.bindings, a, s.asks[a]) && AskOk(verify, s.asks[a])
  {
    RunKeeps(verify, Start, events, s);
  }

  /** An ask takes at most one answer, one to its own request, from the binding that claims its pair. */
  lemma AskTakesItsOwn(verify: Verifier, events: seq<Event>, s: State, a: nat)
    requires IsRun(verify, Start, events, s) && a < |s.asks|
    ensures |s.asks[a].taken| <= 1
    ensures forall answer :: answer in s.asks[a].taken ==> s.asks[a].id == Some(answer.id) && OneOf(answer)
    ensures s.asks[a].binding < |s.bindings|
    ensures ClaimOf(s.asks[a].request.key, s.asks[a].request.scheme) in s.bindings[s.asks[a].binding].pairs
  {
    AskHeld(verify, events, s, a);
  }

  /** Two asks waiting on one binding wait under different IDs. */
  lemma WaitingApart(verify: Verifier, events: seq<Event>, s: State, a: nat, c: nat)
    requires IsRun(verify, Start, events, s) && a < |s.asks| && c < |s.asks| && a != c
    requires s.asks[a].phase == Waiting && s.asks[c].phase == Waiting && s.asks[a].binding == s.asks[c].binding
    ensures s.asks[a].id != s.asks[c].id
  {
    AskHeld(verify, events, s, a);
    AskHeld(verify, events, s, c);
  }

  /** A signature reaches a caller only from the answer taken, verified for the asked key, content and scheme. */
  lemma ReturnedVerified(verify: Verifier, events: seq<Event>, s: State, a: nat)
    requires IsRun(verify, Start, events, s) && a < |s.asks| && s.asks[a].phase.Returned?
    ensures
      var ask := s.asks[a];
      && verify(ask.request.key, ask.request.content, ask.phase.signature)
      && ask.phase.signature.scheme == ask.request.scheme
      && exists answer ::
        ask.taken == [answer] && ask.id == Some(answer.id) && answer.signature == Some(ask.phase.signature)
  {
    RunKeeps(verify, Start, events, s);
    var ask := s.asks[a];
    assert AskOk(verify, ask);
    assert ask.taken == [ask.taken[0]];
  }

  // ---------------------------------------------------------------------------------------
  // What the steps bring about
  // ---------------------------------------------------------------------------------------

  /** Claiming succeeds if and only if no admitted, unreleased binding has one of the pairs. */
  lemma ClaimAdmitsIff(verify: Verifier, events: seq<Event>, s: State, b: nat)
    requires IsRun(verify, Start, events, s) && Enabled(s, TryClaim(b))
    ensures Live(Next(verify, s, TryClaim(b)).bindings[b]) <==>
      forall c, p :: 0 <= c < |s.bindings| && Live(s.bindings[c]) && p in s.bindings[b].pairs ==>
        p !in s.bindings[c].pairs
  {
    RunKeeps(verify, Start, events, s);
    if Free(s.claims, s.bindings[b].pairs) {
      forall c, p | 0 <= c < |s.bindings| && Live(s.bindings[c]) && p in s.bindings[b].pairs
        ensures p !in s.bindings[c].pairs
      {
        assert Owns(s.claims, s.bindings[c].pairs, c);
      }
    } else {
      var p :| p in s.bindings[b].pairs && p in s.claims;
      assert Live(s.bindings[s.claims[p]]) && p in s.bindings[s.claims[p]].pairs;
    }
  }

  /** Releasing a binding frees its pairs and no others. */
  lemma ReleaseFrees(verify: Verifier, events: seq<Event>, s: State, b: nat)
    requires IsRun(verify, Start, events, s) && Enabled(s, Release(b))
    ensures
      var s' := Next(verify, s, Release(b));
      && (forall p :: p in s'.claims <==> p in s.claims && p !in s.bindings[b].pairs)
      && (forall p :: p in s'.claims ==> s'.claims[p] == s.claims[p])
  {
    RunKeeps(verify, Start, events, s);
    assert Owns(s.claims, s.bindings[b].pairs, b);
  }

  /** An answer with both a signature and an error, or with neither, closes its binding and reaches no ask. */
  lemma MalformedCloses(verify: Verifier, s: State, b: nat, answer: Answer)
    requires Enabled(s, Lookup(b, answer)) && !OneOf(answer)
    ensures Next(verify, s, Lookup(b, answer)) == Next(verify, s, Close(b))
    ensures Next(verify, s, Lookup(b, answer)).bindings[b].closed && Next(verify, s, Lookup(b, answer)).asks == s.asks
  {
  }

  /** An answer to an ask that is over, or to none, changes nothing. */
  lemma LateAnswerIgnored(verify: Verifier, events: seq<Event>, s: State, b: nat, answer: Answer)
    requires IsRun(verify, Start, events, s) && Enabled(s, Lookup(b, answer)) && OneOf(answer)
    requires forall a :: 0 <= a < |s.asks| && s.asks[a].binding == b && s.asks[a].id == Some(answer.id) ==>
      s.asks[a].deleted
    ensures Next(verify, s, Lookup(b, answer)) == s
  {
    RunKeeps(verify, Start, events, s);
    assert BindingOk(s.asks, b, s.bindings[b]);
  }

  /** No ask is stuck: it gets any unused ID, can always time out, ends with its binding, and is checked once over. */
  lemma AskNeverStuck(verify: Verifier, events: seq<Event>, s: State, a: nat, id: Nonce)
    requires IsRun(verify, Start, events, s) && a < |s.asks|
    ensures
      var ask := s.asks[a];
      match ask.phase
      case Finding =>
        && ask.binding < |s.bindings|
        && (id != 0 && id !in s.bindings[ask.binding].pending ==> Enabled(s, AddPending(a, id)))
      case Waiting =>
        && Enabled(s, Timeout(a)) && Next(verify, s, Timeout(a)).asks[a].phase == Failed
        && ask.binding < |s.bindings| && (s.bindings[ask.binding].closed ==> Enabled(s, Gone(a)))
      case Taken => if ask.deleted then Enabled(s, Check(a)) else Enabled(s, Delete(a))
      case _ => ask.id.Some? && !ask.deleted ==> Enabled(s, Delete(a))
  {
    AskHeld(verify, events, s, a);
  }

  /** An ask whose pair a live binding has reaches that binding. */
  lemma AskReaches(verify: Verifier, events: seq<Event>, s: State, request: Request, b: nat)
    requires IsRun(verify, Start, events, s) && b < |s.bindings| && Live(s.bindings[b])
    requires Claim(request.key.keyType, request.key.key, request.scheme) in s.bindings[b].pairs
    ensures Enabled(s, Ask(request))
    ensures
      var asks := Next(verify, s, Ask(request)).asks;
      asks[|asks| - 1].binding == b && asks[|asks| - 1].request == request
  {
    RunKeeps(verify, Start, events, s);
    assert Owns(s.claims, s.bindings[b].pairs, b);
  }

  /** A well-formed answer to a waiting request whose buffer is empty is the one the ask takes. */
  lemma AnswerArrives(verify: Verifier, events: seq<Event>, s: State, a: nat, b: nat, answer: Answer)
      returns (s1: State, s2: State, s3: State)
    requires IsRun(verify, Start, events, s) && a < |s.asks| && s.asks[a].phase == Waiting && s.asks[a].buffer.None?
    requires b == s.asks[a].binding < |s.bindings| && s.asks[a].id == Some(answer.id) && OneOf(answer)
    requires s.bindings[b].stage == Admitted && s.bindings[b].inHand.None?
    ensures Enabled(s, Lookup(b, answer)) && s1 == Next(verify, s, Lookup(b, answer))
    ensures Enabled(s1, Hand(b)) && s2 == Next(verify, s1, Hand(b))
    ensures Enabled(s2, Take(a)) && s3 == Next(verify, s2, Take(a))
    ensures a < |s3.asks| && s3.asks[a].taken == [answer] && s3.asks[a].phase == Taken
  {
    AskHeld(verify, events, s, a);
    s1 := LookupFinds(verify, s, a, b, answer);
    s2 := HandBuffers(verify, s1, a, b, answer);
    s3 := Next(verify, s2, Take(a));
    assert [] + [answer] == [answer];
  }

  lemma LookupFinds(verify: Verifier, s: State, a: nat, b: nat, answer: Answer) returns (s1: State)
    requires a < |s.asks| && Enabled(s, Lookup(b, answer)) && OneOf(answer)
    requires answer.id in s.bindings[b].pending && s.bindings[b].pending[answer.id] == a
    ensures s1 == Next(verify, s, Lookup(b, answer)) && s1.asks == s.asks && b < |s1.bindings|
    ensures s1.bindings[b].inHand == Some((answer, a))
  {
    s1 := Next(verify, s, Lookup(b, answer));
  }

  lemma HandBuffers(verify: Verifier, s: State, a: nat, b: nat, answer: Answer) returns (s1: State)
    requires a < |s.asks| && b < |s.bindings| && s.bindings[b].inHand == Some((answer, a)) && s.asks[a].buffer.None?
    ensures Enabled(s, Hand(b)) && s1 == Next(verify, s, Hand(b))
    ensures |s1.asks| == |s.asks| && s1.asks[a] == s.asks[a].(buffer := Some(answer))
  {
    s1 := Next(verify, s, Hand(b));
  }

  /** The answer an ask took carries a signature that is good for what was asked. */
  ghost predicate Good(verify: Verifier, request: Request, answer: Answer) {
    && answer.signature.Some? && verify(request.key, request.content, answer.signature.value)
    && answer.signature.value.scheme == request.scheme
  }

  /** A good signature is returned and its binding left alone; a binding is closed exactly for one that is not good. */
  lemma CheckDecides(verify: Verifier, s: State, a: nat)
    requires Enabled(s, Check(a))
    ensures
      var ask, s' := s.asks[a], Next(verify, s, Check(a));
      var answer, b := ask.taken[0], ask.binding;
      && s'.asks[a] == ask.(phase :=
           if Good(verify, ask.request, answer) then Returned(answer.signature.value) else Refused)
      && s'.bindings == s.bindings[b := s.bindings[b].(closed :=
           s.bindings[b].closed || (answer.signature.Some? && !Good(verify, ask.request, answer)))]
      && s'.claims == s.claims && |s'.asks| == |s.asks|
      && forall c :: 0 <= c < |s.asks| && c != a ==> s'.asks[c] == s.asks[c]
  {
  }
}
