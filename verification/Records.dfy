/** The record format: an encrypted two-byte length, then the encrypted payload. */
module Records {
  import opened Bytes
  import opened Primitives
  import opened TransportCipher
  import T = Transcript

  const MAX_PAYLOAD: nat := 0xFFFF
  const LENGTH_HEADER_SIZE: nat := 2
  const ENC_HEADER_SIZE: nat := LENGTH_HEADER_SIZE + MAC_SIZE

  /** A payload whose length fits the two-byte header. */
  type Record = p: ByteString | |p| <= MAX_PAYLOAD

  function HeaderOf(s: Suite, c: Cipher, p: Record): ByteString
  {
    Seal(s, c, [], BigEndian16(|p|))
  }

  function BodyOf(s: Suite, c: Cipher, p: Record): ByteString {
    Seal(s, Next(s, c), [], p)
  }

  function Frame(s: Suite, c: Cipher, p: Record): ByteString
  {
    HeaderOf(s, c, p) + BodyOf(s, c, p)
  }

  /** The byte stream that carries `records` from cipher state `c` on; each record uses two operations. */
  function Stream(s: Suite, c: Cipher, records: seq<Record>): ByteString
    decreases |records|
  {
    if records == [] then []
    else Frame(s, c, records[0]) + Stream(s, After(s, c, 2), records[1..])
  }

  lemma AfterTwo(s: Suite, c: Cipher)
    ensures After(s, c, 1) == Next(s, c) && After(s, c, 2) == Next(s, Next(s, c))
  {
    assert After(s, c, 0) == c;
  }

  lemma AfterRecord(s: Suite, c: Cipher, n: nat)
    ensures After(s, After(s, c, 2), 2 * n) == After(s, c, 2 * (n + 1))
    ensures After(s, After(s, c, 2 * n), 2) == After(s, c, 2 * (n + 1))
  {
    AfterAdds(s, c, 2, 2 * n, 2 * (n + 1));
    AfterAdds(s, c, 2 * n, 2, 2 * (n + 1));
  }

  lemma FrameSize(s: Suite, c: Cipher, p: Record)
    requires LawfulAead(s)
    ensures |HeaderOf(s, c, p)| == ENC_HEADER_SIZE
    ensures |BodyOf(s, c, p)| == |p| + MAC_SIZE
    ensures |Frame(s, c, p)| == ENC_HEADER_SIZE + |p| + MAC_SIZE
  {
  }

  lemma {:induction false} StreamAppend(s: Suite, c: Cipher, a: seq<Record>, b: seq<Record>)
    ensures Stream(s, c, a + b) == Stream(s, c, a) + Stream(s, After(s, c, 2 * |a|), b)
    decreases |a|
  {
    if a == [] {
      assert a + b == b;
    } else {
      assert (a + b)[0] == a[0] && (a + b)[1..] == a[1..] + b;
      StreamAppend(s, After(s, c, 2), a[1..], b);
      AfterRecord(s, c, |a[1..]|);
    }
  }

  lemma StreamSnoc(s: Suite, c: Cipher, a: seq<Record>, p: Record)
    ensures Stream(s, c, a + [p]) == Stream(s, c, a) + Frame(s, After(s, c, 2 * |a|), p)
  {
    StreamAppend(s, c, a, [p]);
    var d := After(s, c, 2 * |a|);
    assert Stream(s, d, [p]) == Frame(s, d, p) + Stream(s, After(s, d, 2), []);
  }

  /**
   Record `k` of a stream, over the primitives: its length and its payload are sealed under one key, the first one
   ratcheted k / 500 times, with an even and the next counter and no associated data.
   */
  lemma RecordForm(s: Suite, c: Cipher, k: nat, p: Record)
    requires c.nonce == 0
    ensures
      var key, n := Ratchet(s, c.key, c.salt, k / 500).0, 2 * (k % 500);
      Frame(s, After(s, c, 2 * k), p) ==
        s.seal(key, T.Counter(n), [|p| / 256, |p| % 256], []) + s.seal(key, T.Counter(n + 1), p, [])
  {
    KeySchedule(s, c, 2 * k);
    KeySchedule(s, c, 2 * k + 1);
    assert (2 * k) / KEY_ROTATION_INTERVAL == k / 500 == (2 * k + 1) / KEY_ROTATION_INTERVAL;
    assert (2 * k) % KEY_ROTATION_INTERVAL == 2 * (k % 500) && (2 * k + 1) % KEY_ROTATION_INTERVAL == 2 * (k % 500) + 1;
    NonceForm(2 * (k % 500));
    NonceForm(2 * (k % 500) + 1);
  }

  // ---------------------------------------------------------------------------------------
  // Reading
  // ---------------------------------------------------------------------------------------

  /** The body size a header announces, MAC included. */
  function OpenHeader(s: Suite, c: Cipher, header: ByteString): Option<nat> {
    match Open(s, c, [], header)
    case Some(b) => if |b| == LENGTH_HEADER_SIZE then Some(Uint16(b) + MAC_SIZE) else None
    case None => None
  }

  function OpenBody(s: Suite, c: Cipher, body: ByteString): Option<ByteString> {
    Open(s, c, [], body)
  }

  lemma FrameOpens(s: Suite, c: Cipher, p: Record)
    requires LawfulAead(s)
    ensures OpenHeader(s, c, HeaderOf(s, c, p)) == Some(|p| + MAC_SIZE)
    ensures OpenBody(s, Next(s, c), BodyOf(s, c, p)) == Some(p)
  {
    var d := Next(s, c);
    assert s.open(c.key, NonceBytes(c.nonce), s.seal(c.key, NonceBytes(c.nonce), BigEndian16(|p|), []), [])
      == Some(BigEndian16(|p|));
    assert s.open(d.key, NonceBytes(d.nonce), s.seal(d.key, NonceBytes(d.nonce), p, []), []) == Some(p);
  }

  // ---------------------------------------------------------------------------------------
  // Counting flushed payload
  // ---------------------------------------------------------------------------------------

  /** Payload bytes among the last `left` bytes of a body: all but its MAC. */
  function PayloadLeft(left: nat): nat {
    if left > MAC_SIZE then left - MAC_SIZE else 0
  }
}
