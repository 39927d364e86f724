/** The bytes and keys of a connection written out over the primitives alone. */
module Transcript {
  import opened Bytes
  import opened Primitives

  /** The twelve nonce bytes of counter `n`. */
  function Counter(n: nat): ByteString
    requires n < 1000
  {
    [0, 0, 0, 0, n % 256, n / 256, 0, 0, 0, 0, 0, 0]
  }

  /** The digest before the first act: protocol name, prologue and the responder's static key. */
  function FirstDigest(s: Suite, name: ByteString, prologue: ByteString, responder: PubKey): ByteString {
    s.hash(s.hash(s.hash(name) + prologue) + s.serialize(responder))
  }

  /** An act: the digest, chaining key and message key after it, and its packet. */
  datatype Act = Act(h: ByteString, ck: ByteString, key: ByteString, packet: ByteString)

  /** Acts one and two: a new ephemeral key, mixed with a key of the other side, and a tag over the digest so far. */
  function EphemeralAct(s: Suite, h: ByteString, ck: ByteString, ephemeral: PrivKey, theirs: PubKey): Act {
    var point := s.serialize(s.pub(ephemeral));
    var digest := s.hash(h + point);
    var (ck', key) := s.hkdf(s.dh(ephemeral, theirs), ck);
    var tag := s.seal(key, Counter(0), [], digest);
    Act(s.hash(digest + tag), ck', key, [0] + (point + tag))
  }

  /** Act three: the static key sealed under act two's key, mixed with the other side's ephemeral key, and a tag. */
  function StaticAct(s: Suite, h: ByteString, ck: ByteString, key: ByteString, own: PrivKey, theirs: PubKey): Act {
    var sealed := s.seal(key, Counter(1), s.serialize(s.pub(own)), h);
    var digest := s.hash(h + sealed);
    var (ck', key') := s.hkdf(s.dh(own, theirs), ck);
    var tag := s.seal(key', Counter(0), [], digest);
    Act(s.hash(digest + tag), ck', key', [0] + (sealed + tag))
  }

  /** The three acts of a handshake. */
  function Acts(s: Suite, name: ByteString, prologue: ByteString,
                initiatorKey: PrivKey, responderKey: PrivKey, e1: PrivKey, e2: PrivKey): (Act, Act, Act)
  {
    var first := FirstDigest(s, name, prologue, s.pub(responderKey));
    var one := EphemeralAct(s, first, s.hash(name), e1, s.pub(responderKey));
    var two := EphemeralAct(s, one.h, one.ck, e2, s.pub(e1));
    var three := StaticAct(s, two.h, two.ck, two.key, initiatorKey, s.pub(e2));
    (one, two, three)
  }
}
