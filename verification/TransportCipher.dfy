/** Cryptographic primitives as parameters with the laws the protocol relies on. */
module Primitives {
  import opened Bytes

  const MAC_SIZE: nat := 16
  const PUB_SIZE: nat := 33

  /** A private scalar. */
  type PrivKey = k: ByteString | |k| == 32 witness seq(32, i => 0)

  datatype PubKey = PubKey(point: ByteString)

  /** ChaCha20-Poly1305, HKDF-SHA256 (its first and second 32 bytes), SHA-256 and secp256k1. */
  datatype Suite = Suite(
    seal: (ByteString, ByteString, ByteString, ByteString) -> ByteString,
    open: (ByteString, ByteString, ByteString, ByteString) -> Option<ByteString>,
    hkdf: (ByteString, ByteString) -> (ByteString, ByteString),
    hash: ByteString -> ByteString,
    pub: PrivKey -> PubKey,
    dh: (PrivKey, PubKey) -> ByteString,
    serialize: PubKey -> ByteString,
    parse: ByteString -> Option<PubKey>)

  /** Open undoes Seal under the same key, nonce and associated data, and Seal adds one MAC. */
  ghost predicate LawfulAead(s: Suite) {
    forall key, nonce, plain, ad ::
      var ct := s.seal(key, nonce, plain, ad);
      |ct| == |plain| + MAC_SIZE && s.open(key, nonce, ct, ad) == Some(plain)
  }

  /** ECDH commutes, and parsing undoes serialization of the keys parties hold. */
  ghost predicate LawfulKeys(s: Suite) {
    && (forall a, b :: s.dh(a, s.pub(b)) == s.dh(b, s.pub(a)))
    && (forall a :: |s.serialize(s.pub(a))| == PUB_SIZE && s.parse(s.serialize(s.pub(a))) == Some(s.pub(a)))
  }

  ghost predicate Lawful(s: Suite) {
    LawfulAead(s) && LawfulKeys(s)
  }

  /** The laws are consistent: some suite satisfies all of them. */
  lemma LawsSatisfiable() returns (s: Suite)
    ensures Lawful(s)
  {
    s := Suite(
      (key, nonce, plain, ad) => plain + seq(MAC_SIZE, i => 0),
      (key, nonce, ct, ad) => if |ct| < MAC_SIZE then None else Some(ct[..|ct| - MAC_SIZE]),
      (secret, salt) => (secret, salt),
      data => data,
      k => PubKey([2] + k),
      (k, p) => [],
      (p: PubKey) => p.point,
      b => Some(PubKey(b)));
    forall key: ByteString, nonce: ByteString, plain: ByteString, ad: ByteString
      ensures s.open(key, nonce, s.seal(key, nonce, plain, ad), ad) == Some(plain)
    {
      assert (plain + seq(MAC_SIZE, i => 0))[..|plain|] == plain;
    }
  }
}

/** The ratcheting transport cipher. */
module TransportCipher {
  import opened Bytes
  import opened Primitives
  import T = Transcript

  const KEY_ROTATION_INTERVAL: nat := 1000

  /** The AEAD instance the source keeps beside the key is a function of the key. */
  datatype Cipher = Cipher(nonce: nat, key: ByteString, salt: ByteString)

  /** Four zero bytes, then the 64-bit counter. */
  function NonceBytes(nonce: nat): ByteString {
    [0, 0, 0, 0] + LittleEndian(nonce, 8)
  }

  function Seal(s: Suite, c: Cipher, ad: ByteString, plain: ByteString): ByteString {
    s.seal(c.key, NonceBytes(c.nonce), plain, ad)
  }

  function Open(s: Suite, c: Cipher, ad: ByteString, ct: ByteString): Option<ByteString> {
    s.open(c.key, NonceBytes(c.nonce), ct, ad)
  }

  function Rotated(s: Suite, c: Cipher): Cipher {
    var (salt, key) := s.hkdf(c.key, c.salt);
    Cipher(0, key, salt)
  }

  /** The state after one Encrypt or Decrypt, whether or not the MAC check passed. */
  function Next(s: Suite, c: Cipher): Cipher {
    if c.nonce + 1 == KEY_ROTATION_INTERVAL then Rotated(s, c) else c.(nonce := c.nonce + 1)
  }

  function After(s: Suite, c: Cipher, ops: nat): Cipher {
    if ops == 0 then c else Next(s, After(s, c, ops - 1))
  }

  lemma {:induction false} AfterAdds(s: Suite, c: Cipher, m: nat, n: nat, total: nat)
    requires total == m + n
    ensures After(s, After(s, c, m), n) == After(s, c, total)
    decreases n
  {
    if n > 0 { AfterAdds(s, c, m, n - 1, total - 1); }
  }

  /** Key and salt ratcheted `epochs` times, independent of any counter. */
  function Ratchet(s: Suite, key: ByteString, salt: ByteString, epochs: nat): (ByteString, ByteString) {
    if epochs == 0 then (key, salt)
    else
      var (k, sa) := Ratchet(s, key, salt, epochs - 1);
      var (sa', k') := s.hkdf(k, sa);
      (k', sa')
  }

  /** After k operations: k / 1000 ratchets, and a counter of k mod 1000. */
  lemma {:induction false} KeySchedule(s: Suite, c: Cipher, ops: nat)
    requires c.nonce == 0
    ensures
      var (key, salt) := Ratchet(s, c.key, c.salt, ops / KEY_ROTATION_INTERVAL);
      After(s, c, ops) == Cipher(ops % KEY_ROTATION_INTERVAL, key, salt)
  {
    if ops > 0 {
      KeySchedule(s, c, ops - 1);
      if ops % KEY_ROTATION_INTERVAL == 0 {
        assert (ops - 1) / KEY_ROTATION_INTERVAL == ops / KEY_ROTATION_INTERVAL - 1;
        assert (ops - 1) % KEY_ROTATION_INTERVAL == KEY_ROTATION_INTERVAL - 1;
      } else {
        assert (ops - 1) / KEY_ROTATION_INTERVAL == ops / KEY_ROTATION_INTERVAL;
        assert (ops - 1) % KEY_ROTATION_INTERVAL == ops % KEY_ROTATION_INTERVAL - 1;
      }
    }
  }

  /** No two operations share both the rotation epoch and the nonce given to the AEAD. */
  lemma NonceNeverReused(s: Suite, c: Cipher, i: nat, j: nat)
    requires c.nonce == 0
    requires i / KEY_ROTATION_INTERVAL == j / KEY_ROTATION_INTERVAL
    requires NonceBytes(After(s, c, i).nonce) == NonceBytes(After(s, c, j).nonce)
    ensures i == j
  {
    KeySchedule(s, c, i);
    KeySchedule(s, c, j);
    SmallNonce(i % KEY_ROTATION_INTERVAL);
    SmallNonce(j % KEY_ROTATION_INTERVAL);
  }

  /** The nonce of a counter below the rotation interval, byte by byte. */
  lemma NonceForm(n: nat)
    requires n < KEY_ROTATION_INTERVAL
    ensures NonceBytes(n) == T.Counter(n)
  {
    ZeroTail();
    assert n / 256 < 256 && n / 256 / 256 == 0;
    assert LittleEndian(n, 8) == [n % 256] + LittleEndian(n / 256, 7);
    assert LittleEndian(n / 256, 7) == [n / 256] + LittleEndian(0, 6);
    assert [0, 0, 0, 0] + ([n % 256] + ([n / 256] + [0, 0, 0, 0, 0, 0])) == T.Counter(n);
  }

  lemma ZeroTail()
    ensures LittleEndian(0, 6) == [0, 0, 0, 0, 0, 0]
  {
    assert LittleEndian(0, 1) == [0];
    assert LittleEndian(0, 2) == [0, 0];
    assert LittleEndian(0, 3) == [0, 0, 0];
    assert LittleEndian(0, 4) == [0, 0, 0, 0];
    assert LittleEndian(0, 5) == [0, 0, 0, 0, 0];
  }

  lemma SmallNonce(n: nat)
    requires n < KEY_ROTATION_INTERVAL
    ensures (NonceBytes(n)[4] as int) + 256 * (NonceBytes(n)[5] as int) == n
  {
    assert LittleEndian(n, 8) == [n % 256] + LittleEndian(n / 256, 7);
    assert LittleEndian(n / 256, 7) == [n / 256 % 256] + LittleEndian(n / 256 / 256, 6);
    assert NonceBytes(n)[4] == n % 256 && NonceBytes(n)[5] == n / 256 % 256;
  }

  class CipherState {
    var nonce: nat
    var secretKey: ByteString
    var salt: ByteString

    function View(): Cipher
      reads this
    {
      Cipher(nonce, secretKey, salt)
    }

    constructor (salt: ByteString, key: ByteString)
      ensures View() == Cipher(0, key, salt)
    {
      this.nonce := 0;
      this.secretKey := key;
      this.salt := salt;
    }

    method InitializeKey(key: ByteString)
      modifies this
      ensures View() == Cipher(0, key, old(salt))
    {
      secretKey := key;
      nonce := 0;
    }

    method InitializeKeyWithSalt(salt: ByteString, key: ByteString)
      modifies this
      ensures View() == Cipher(0, key, salt)
    {
      this.salt := salt;
      InitializeKey(key);
    }

    method RotateKey(s: Suite)
      modifies this
      ensures View() == Rotated(s, old(View()))
    {
      var (first, second) := s.hkdf(secretKey, salt);
      salt := first;
      InitializeKey(second);
    }

    method Advance(s: Suite)
      modifies this
      ensures View() == Next(s, old(View()))
    {
      nonce := nonce + 1;
      if nonce == KEY_ROTATION_INTERVAL {
        RotateKey(s);
      }
    }

    method Encrypt(s: Suite, ad: ByteString, plain: ByteString) returns (ct: ByteString)
      modifies this
      ensures View() == Next(s, old(View()))
      ensures ct == Seal(s, old(View()), ad, plain)
    {
      ct := s.seal(secretKey, NonceBytes(nonce), plain, ad);
      Advance(s);
    }

    method Decrypt(s: Suite, ad: ByteString, ct: ByteString) returns (plain: Option<ByteString>)
      modifies this
      ensures View() == Next(s, old(View()))
      ensures plain == Open(s, old(View()), ad, ct)
    {
      plain := s.open(secretKey, NonceBytes(nonce), ct, ad);
      Advance(s);
    }
  }
}
