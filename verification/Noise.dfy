/**
 The Noise handshake as a token interpreter (sections 5.2, 5.3 and 7.5 of the Noise Protocol Framework,
 revision 34), and the agreement both parties reach by running it.
 */
module Noise {
  import opened Bytes
  import opened Primitives
  import opened TransportCipher
  import T = Transcript

  const TAG: nat := MAC_SIZE

  datatype Symmetric = Symmetric(cipher: Cipher, ck: ByteString, h: ByteString)

  function MixHash(s: Suite, y: Symmetric, data: ByteString): Symmetric {
    y.(h := s.hash(y.h + data))
  }

  function MixKey(s: Suite, y: Symmetric, input: ByteString): Symmetric {
    var (ck, k) := s.hkdf(input, y.ck);
    y.(ck := ck, cipher := y.cipher.(nonce := 0, key := k))
  }

  function EncryptAndHash(s: Suite, y: Symmetric, plain: ByteString): (Symmetric, ByteString) {
    var ct := Seal(s, y.cipher, y.h, plain);
    (MixHash(s, y.(cipher := Next(s, y.cipher)), ct), ct)
  }

  /** A failed MAC check still advances the cipher, but hashes nothing. */
  function DecryptAndHash(s: Suite, y: Symmetric, ct: ByteString): (Symmetric, Option<ByteString>) {
    var plain := Open(s, y.cipher, y.h, ct);
    var y' := y.(cipher := Next(s, y.cipher));
    (if plain.Some? then MixHash(s, y', ct) else y', plain)
  }

  /** One party: its own static and ephemeral keys, and what it knows of the other's. */
  datatype Party = Party(
    initiator: bool,
    sym: Symmetric,
    s: PrivKey,
    e: Option<PrivKey>,
    rs: Option<PubKey>,
    re: Option<PubKey>)

  function Initial(s: Suite, initiator: bool, name: ByteString, prologue: ByteString,
                   local: PrivKey, remote: Option<PubKey>): Party
    requires initiator ==> remote.Some?
  {
    var h := s.hash(name);
    var y0 := Symmetric(Cipher(0, seq(32, i => 0), seq(32, i => 0)), h, h);
    var y1 := MixHash(s, y0, prologue);
    var responder := if initiator then remote.value else s.pub(local);
    Party(initiator, MixHash(s, y1, s.serialize(responder)), local, None, remote, None)
  }

  datatype Token = E | S | ES | EE | SE

  /** The message patterns of XK. */
  const XK: seq<(Token, Token)> := [(E, ES), (E, EE), (S, SE)]

  /** The two keys a Diffie-Hellman token combines, when the party holds both. */
  function DhKeys(p: Party, t: Token): Option<(PrivKey, PubKey)> {
    match t
    case ES =>
      if p.initiator then Pair(p.e, p.rs) else Pair(Some(p.s), p.re)
    case SE =>
      if p.initiator then Pair(Some(p.s), p.re) else Pair(p.e, p.rs)
    case EE => Pair(p.e, p.re)
    case _ => None
  }

  function Pair<A, B>(a: Option<A>, b: Option<B>): Option<(A, B)> {
    if a.Some? && b.Some? then Some((a.value, b.value)) else None
  }

  function Mixed(s: Suite, p: Party, t: Token): Party
    requires DhKeys(p, t).Some?
  {
    var (a, b) := DhKeys(p, t).value;
    p.(sym := MixKey(s, p.sym, s.dh(a, b)))
  }

  /** Every key a token needs is at hand; an E token of the writer supplies its own. */
  predicate CanWrite(p: Party, t: Token) {
    t == E || t == S || DhKeys(p, t).Some?
  }

  function WriteToken(s: Suite, p: Party, t: Token, eph: PrivKey): (Party, ByteString)
    requires CanWrite(p, t)
  {
    match t
    case E =>
      var out := s.serialize(s.pub(eph));
      (p.(e := Some(eph), sym := MixHash(s, p.sym, out)), out)
    case S =>
      var (y, ct) := EncryptAndHash(s, p.sym, s.serialize(s.pub(p.s)));
      (p.(sym := y), ct)
    case _ => (Mixed(s, p, t), [])
  }

  function TokenSize(t: Token): nat {
    match t
    case E => PUB_SIZE
    case S => PUB_SIZE + TAG
    case _ => 0
  }

  datatype Received = Received(ok: bool, party: Party)

  /** A token is read from exactly the bytes it occupies. */
  function ReadToken(s: Suite, p: Party, t: Token, data: ByteString): Received
    requires t == E || t == S || DhKeys(p, t).Some?
  {
    match t
    case E =>
      var key := s.parse(data);
      if key.None? then Received(false, p.(re := None))
      else Received(true, p.(re := key, sym := MixHash(s, p.sym, s.serialize(key.value))))
    case S =>
      var (y, plain) := DecryptAndHash(s, p.sym, data);
      if plain.None? then Received(false, p.(sym := y))
      else
        var key := s.parse(plain.value);
        Received(key.Some?, p.(sym := y, rs := key))
    case _ => Received(true, Mixed(s, p, t))
  }

  /** A message: two tokens and the empty payload. */
  function WriteMessage(s: Suite, p: Party, ts: (Token, Token), eph: PrivKey): (Party, ByteString)
    requires CanWrite(p, ts.0) && CanWrite(WriteToken(s, p, ts.0, eph).0, ts.1)
  {
    var (p1, out1) := WriteToken(s, p, ts.0, eph);
    var (p2, out2) := WriteToken(s, p1, ts.1, eph);
    var (y, tag) := EncryptAndHash(s, p2.sym, []);
    (p2.(sym := y), out1 + out2 + tag)
  }

  function ReadMessage(s: Suite, p: Party, ts: (Token, Token), data: ByteString): Received
    requires |data| == TokenSize(ts.0) + TokenSize(ts.1) + TAG
    requires CanWrite(p, ts.0)
    requires
      var r := ReadToken(s, p, ts.0, data[..TokenSize(ts.0)]);
      r.ok ==> CanWrite(r.party, ts.1)
  {
    var a, b := TokenSize(ts.0), TokenSize(ts.0) + TokenSize(ts.1);
    var r1 := ReadToken(s, p, ts.0, data[..a]);
    if !r1.ok then r1
    else
      var r2 := ReadToken(s, r1.party, ts.1, data[a..b]);
      if !r2.ok then r2
      else
        var (y, plain) := DecryptAndHash(s, r2.party.sym, data[b..]);
        Received(plain.Some?, r2.party.(sym := y))
  }

  /** The two transport ciphers, initiator's sending one first. */
  function Split(s: Suite, y: Symmetric): (Cipher, Cipher) {
    var (k1, k2) := s.hkdf([], y.ck);
    (Cipher(0, k1, y.ck), Cipher(0, k2, y.ck))
  }

  // ---------------------------------------------------------------------------------------
  // Agreement
  // ---------------------------------------------------------------------------------------

  /** Equal symmetric states, and each party's view of the other is the other's own keys. */
  ghost predicate Agree(s: Suite, i: Party, r: Party) {
    && i.initiator && !r.initiator
    && i.sym == r.sym
    && Knows(s, i.rs, Some(r.s)) && Knows(s, r.rs, Some(i.s))
    && Knows(s, i.re, r.e) && Knows(s, r.re, i.e)
    && (i.re.Some? <==> r.e.Some?) && (r.re.Some? <==> i.e.Some?)
    && i.rs.Some?
  }

  ghost predicate Knows(s: Suite, pub: Option<PubKey>, priv: Option<PrivKey>) {
    pub.Some? ==> priv.Some? && pub.value == s.pub(priv.value)
  }

  /** `w` writes and `r` reads, whichever of the two is the initiator. */
  ghost predicate Peers(s: Suite, w: Party, r: Party) {
    if w.initiator then Agree(s, w, r) else Agree(s, r, w)
  }

  /** Reading back what was sealed leaves the reader in the writer's symmetric state. */
  lemma SealedReadsBack(s: Suite, y: Symmetric, plain: ByteString)
    requires LawfulAead(s)
    ensures |EncryptAndHash(s, y, plain).1| == |plain| + TAG
    ensures DecryptAndHash(s, y, EncryptAndHash(s, y, plain).1) == (EncryptAndHash(s, y, plain).0, Some(plain))
  {
    var key, nonce := y.cipher.key, NonceBytes(y.cipher.nonce);
    assert s.open(key, nonce, s.seal(key, nonce, plain, y.h), y.h) == Some(plain);
  }

  /** For every token: what one peer writes the other reads, and they stay peers. */
  lemma TokenAgrees(s: Suite, w: Party, r: Party, t: Token, eph: PrivKey)
    requires Lawful(s) && Peers(s, w, r)
    requires CanWrite(w, t) && CanWrite(r, t)
    ensures
      var (w', out) := WriteToken(s, w, t, eph);
      var got := ReadToken(s, r, t, out);
      |out| == TokenSize(t) && got.ok && Peers(s, w', got.party)
  {
    match t
    case E =>
      assert s.parse(s.serialize(s.pub(eph))) == Some(s.pub(eph));
    case S =>
      SealedReadsBack(s, w.sym, s.serialize(s.pub(w.s)));
      assert s.parse(s.serialize(s.pub(w.s))) == Some(s.pub(w.s));
    case _ =>
      var (a, pb) := DhKeys(w, t).value;
      var (b, pa) := DhKeys(r, t).value;
      assert pb == s.pub(b) && pa == s.pub(a);
      assert s.dh(a, s.pub(b)) == s.dh(b, s.pub(a));
  }

  /** For every message both peers can process: the reader accepts it and they stay peers. */
  lemma MessageAgrees(s: Suite, w: Party, r: Party, ts: (Token, Token), eph: PrivKey)
    requires Lawful(s) && Peers(s, w, r)
    requires CanWrite(w, ts.0) && CanWrite(r, ts.0)
    requires
      var (w1, out) := WriteToken(s, w, ts.0, eph);
      CanWrite(w1, ts.1) && CanWrite(ReadToken(s, r, ts.0, out).party, ts.1)
    ensures
      var (w', out) := WriteMessage(s, w, ts, eph);
      && |out| == TokenSize(ts.0) + TokenSize(ts.1) + TAG
      && out[..TokenSize(ts.0)] == WriteToken(s, w, ts.0, eph).1
      && var got := ReadMessage(s, r, ts, out);
      && got.ok && Peers(s, w', got.party)
  {
    TokenAgrees(s, w, r, ts.0, eph);
    var (w1, out1) := WriteToken(s, w, ts.0, eph);
    var r1 := ReadToken(s, r, ts.0, out1).party;
    TokenAgrees(s, w1, r1, ts.1, eph);
    var (w2, out2) := WriteToken(s, w1, ts.1, eph);
    SealedReadsBack(s, w2.sym, []);
    var (w', out) := WriteMessage(s, w, ts, eph);
    var a, b := TokenSize(ts.0), TokenSize(ts.0) + TokenSize(ts.1);
    assert out[..a] == out1 && out[a..b] == out2 && out[b..] == EncryptAndHash(s, w2.sym, []).1;
  }

  /** The keys exchanged once `acts` messages of XK have passed. */
  predicate Stage(acts: nat, i: Party, r: Party) {
    && i.rs.Some?
    && (acts >= 1 ==> i.e.Some? && r.re.Some?)
    && (acts >= 2 ==> r.e.Some? && i.re.Some?)
    && (acts >= 3 ==> r.rs.Some?)
  }

  function Writes(act: nat, i: Party, r: Party): Party {
    if act == 1 then r else i
  }

  function Reads(act: nat, i: Party, r: Party): Party {
    if act == 1 then i else r
  }

  /** Each act of XK: both sides can process it, the reader accepts it, and the parties still agree. */
  lemma ActAgrees(s: Suite, i: Party, r: Party, act: nat, eph: PrivKey)
    requires Lawful(s) && Agree(s, i, r) && act < 3 && Stage(act, i, r)
    ensures
      var w, d, ts := Writes(act, i, r), Reads(act, i, r), XK[act];
      && CanWrite(w, ts.0) && CanWrite(WriteToken(s, w, ts.0, eph).0, ts.1)
      && CanWrite(d, ts.0)
      && var (w', out) := WriteMessage(s, w, ts, eph);
      && |out| == TokenSize(ts.0) + TokenSize(ts.1) + TAG
      && CanWrite(ReadToken(s, d, ts.0, out[..TokenSize(ts.0)]).party, ts.1)
      && var got := ReadMessage(s, d, ts, out);
      && got.ok
      && var i' := if act == 1 then got.party else w';
         var r' := if act == 1 then w' else got.party;
      && Agree(s, i', r') && Stage(act + 1, i', r')
  {
    var w, d, ts := Writes(act, i, r), Reads(act, i, r), XK[act];
    TokenAgrees(s, w, d, ts.0, eph);
    MessageAgrees(s, w, d, ts, eph);
  }

  // ---------------------------------------------------------------------------------------
  // The acts written out
  // ---------------------------------------------------------------------------------------

  /** The symmetric state a party is in after an act. */
  ghost predicate Reached(y: Symmetric, act: T.Act) {
    y.h == act.h && y.ck == act.ck && y.cipher.key == act.key && y.cipher.nonce == 1
  }

  lemma InitialForm(s: Suite, initiator: bool, name: ByteString, prologue: ByteString,
                    local: PrivKey, remote: Option<PubKey>)
    requires initiator ==> remote.Some?
    ensures
      var p := Initial(s, initiator, name, prologue, local, remote);
      && p.sym.h == T.FirstDigest(s, name, prologue, if initiator then remote.value else s.pub(local))
      && p.sym.ck == s.hash(name)
  {
  }

  /** An act that sends an ephemeral key and mixes it with a key of the other side. */
  lemma EphemeralForm(s: Suite, p: Party, t: Token, eph: PrivKey, theirs: PubKey)
    requires CanWrite(WriteToken(s, p, E, eph).0, t)
    requires (t == ES && p.initiator && p.rs == Some(theirs)) || (t == EE && p.re == Some(theirs))
    ensures
      var act := T.EphemeralAct(s, p.sym.h, p.sym.ck, eph, theirs);
      var (w, out) := WriteMessage(s, p, (E, t), eph);
      Reached(w.sym, act) && [0] + out == act.packet
  {
    NonceForm(0);
    var point, act := s.serialize(s.pub(eph)), T.EphemeralAct(s, p.sym.h, p.sym.ck, eph, theirs);
    var tag := s.seal(act.key, T.Counter(0), [], s.hash(p.sym.h + point));
    assert point + [] + tag == point + tag;
  }

  /** The act that sends the initiator's static key. */
  lemma StaticForm(s: Suite, p: Party, eph: PrivKey, theirs: PubKey)
    requires p.initiator && p.re == Some(theirs) && p.sym.cipher.nonce == 1
    ensures
      var act := T.StaticAct(s, p.sym.h, p.sym.ck, p.sym.cipher.key, p.s, theirs);
      var (w, out) := WriteMessage(s, p, (S, SE), eph);
      Reached(w.sym, act) && [0] + out == act.packet
  {
    NonceForm(0);
    NonceForm(1);
    var sealed := s.seal(p.sym.cipher.key, T.Counter(1), s.serialize(s.pub(p.s)), p.sym.h);
    var act := T.StaticAct(s, p.sym.h, p.sym.ck, p.sym.cipher.key, p.s, theirs);
    var tag := s.seal(act.key, T.Counter(0), [], s.hash(p.sym.h + sealed));
    assert sealed + [] + tag == sealed + tag;
  }

  lemma SplitForm(s: Suite, y: Symmetric)
    ensures Split(s, y) == (Cipher(0, s.hkdf([], y.ck).0, y.ck), Cipher(0, s.hkdf([], y.ck).1, y.ck))
  {
  }
}
