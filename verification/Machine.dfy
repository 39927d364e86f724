/** The two ends of a byte transport. */
module Transport {
  import opened Bytes

  /** A writer that fails at most `faults` more times, whenever it likes; a write that fails may have taken a prefix. */
  class Writer {
    var sent: ByteString
    var faults: nat

    constructor (faults: nat)
      ensures sent == [] && this.faults == faults
    {
      sent, this.faults := [], faults;
    }

    method Write(b: ByteString) returns (n: nat, failed: bool)
      modifies this
      ensures n <= |b| && sent == old(sent) + b[..n]
      ensures !failed ==> n == |b| && faults == old(faults)
      ensures failed ==> old(faults) > 0 && faults == old(faults) - 1
    {
      failed := *;
      if !failed || faults == 0 {
        sent := sent + b;
        assert b[..|b|] == b;
        return |b|, false;
      }
      n :| 0 <= n <= |b|;
      sent, faults := sent + b[..n], faults - 1;
    }
  }

  /** A blocking reader: a read completes once its bytes are there, and fails when the stream ends first. */
  class Reader {
    var input: ByteString

    constructor (input: ByteString)
      ensures this.input == input
    {
      this.input := input;
    }

    method ReadFull(n: nat) returns (b: Option<ByteString>)
      modifies this
      ensures n <= |old(input)| ==> b == Some(old(input)[..n]) && input == old(input)[n..]
      ensures n > |old(input)| ==> b == None && input == []
    {
      if n <= |input| {
        b, input := Some(input[..n]), input[n..];
      } else {
        b, input := None, [];
      }
    }
  }
}

/** The handshake and transport state machine of one side of a connection. */
module Machine {
  import opened Bytes
  import opened Primitives
  import opened TransportCipher
  import opened Records
  import opened Transport
  import N = Noise
  import T = Transcript

  const HANDSHAKE_VERSION: Byte := 0
  const ACT_ONE_SIZE: nat := 50
  const ACT_TWO_SIZE: nat := 50
  const ACT_THREE_SIZE: nat := 66

  const ZEROS: ByteString := seq(32, i => 0)

  datatype WriteError = MaxMessageLengthExceeded | MessageNotFlushed

  /** What was sent and what is left stay the same bytes when a front of what is left is sent. */
  lemma FrontLeaves(sent: ByteString, b: ByteString, n: nat, behind: ByteString)
    requires n <= |b|
    ensures (sent + b[..n]) + b[n..] + behind == sent + b + behind
    ensures (sent + b[..n]) + [] + b[n..] == sent + [] + b
  {
    assert b[..n] + b[n..] == b;
    Reassociate(sent, b[..n], b[n..]);
  }

  class Machine {
    const initiator: bool
    const localStatic: PrivKey
    const cipher: CipherState
    const sendCipher: CipherState
    const recvCipher: CipherState

    var chainingKey: ByteString
    var handshakeDigest: ByteString
    var localEphemeral: Option<PrivKey>
    var remoteStatic: Option<PubKey>
    var remoteEphemeral: Option<PubKey>
    var nextHeaderSend: ByteString
    var nextBodySend: ByteString

    ghost predicate Valid() {
      cipher != sendCipher && cipher != recvCipher && sendCipher != recvCipher
    }

    ghost function View(): N.Party
      reads this, cipher
    {
      N.Party(initiator, N.Symmetric(cipher.View(), chainingKey, handshakeDigest),
              localStatic, localEphemeral, remoteStatic, remoteEphemeral)
    }

    constructor (s: Suite, initiator: bool, name: ByteString, prologue: ByteString,
                 localKey: PrivKey, remotePub: Option<PubKey>)
      requires initiator ==> remotePub.Some?
      ensures Valid() && fresh(cipher) && fresh(sendCipher) && fresh(recvCipher)
      ensures View() == N.Initial(s, initiator, name, prologue, localKey, remotePub)
      ensures nextHeaderSend == [] && nextBodySend == []
    {
      this.initiator := initiator;
      localStatic := localKey;
      remoteStatic := remotePub;
      localEphemeral := None;
      remoteEphemeral := None;
      nextHeaderSend, nextBodySend := [], [];
      cipher := new CipherState(ZEROS, ZEROS);
      sendCipher := new CipherState(ZEROS, ZEROS);
      recvCipher := new CipherState(ZEROS, ZEROS);
      handshakeDigest := s.hash(name);
      chainingKey := s.hash(name);
      new;
      MixHash(s, prologue);
      if initiator {
        MixHash(s, s.serialize(remotePub.value));
      } else {
        MixHash(s, s.serialize(s.pub(localKey)));
      }
    }

    method MixHash(s: Suite, data: ByteString)
      modifies this`handshakeDigest
      ensures View() == old(View()).(sym := N.MixHash(s, old(View()).sym, data))
    {
      handshakeDigest := s.hash(handshakeDigest + data);
    }

    method MixKey(s: Suite, input: ByteString)
      modifies this`chainingKey, cipher
      ensures View() == old(View()).(sym := N.MixKey(s, old(View()).sym, input))
    {
      var (ck, tempKey) := s.hkdf(input, chainingKey);
      chainingKey := ck;
      cipher.InitializeKey(tempKey);
    }

    method EncryptAndHash(s: Suite, plain: ByteString) returns (ct: ByteString)
      modifies this`handshakeDigest, cipher
      ensures var (y, out) := N.EncryptAndHash(s, old(View()).sym, plain);
              View() == old(View()).(sym := y) && ct == out
    {
      ct := cipher.Encrypt(s, handshakeDigest, plain);
      MixHash(s, ct);
    }

    method DecryptAndHash(s: Suite, ct: ByteString) returns (plain: Option<ByteString>)
      modifies this`handshakeDigest, cipher
      ensures var (y, out) := N.DecryptAndHash(s, old(View()).sym, ct);
              View() == old(View()).(sym := y) && plain == out
    {
      plain := cipher.Decrypt(s, handshakeDigest, ct);
      if plain.Some? {
        MixHash(s, ct);
      }
    }

    // -------------------------------------------------------------------------------------
    // The three acts. Each writer performs one message of the XK pattern, and each reader
    // the matching read; a packet is the version byte followed by the message.
    // -------------------------------------------------------------------------------------

    method GenActOne(s: Suite, generated: Option<PrivKey>) returns (packet: Option<ByteString>)
      requires initiator && remoteStatic.Some?
      modifies this`handshakeDigest, this`chainingKey, this`localEphemeral, cipher
      ensures generated.None? ==> packet == None && View() == old(View())
      ensures generated.Some? ==>
        var (w, out) := N.WriteMessage(s, old(View()), N.XK[0], generated.value);
        View() == w && packet == Some([HANDSHAKE_VERSION] + out)
    {
      if generated.None? {
        return None;
      }
      localEphemeral := generated;
      var ephemeral := s.serialize(s.pub(generated.value));
      MixHash(s, ephemeral);
      MixKey(s, s.dh(generated.value, remoteStatic.value));
      var authPayload := EncryptAndHash(s, []);
      assert ephemeral + authPayload == ephemeral + [] + authPayload;
      packet := Some([HANDSHAKE_VERSION] + (ephemeral + authPayload));
    }

    method RecvActOne(s: Suite, actOne: ByteString) returns (ok: bool)
      requires |actOne| == ACT_ONE_SIZE && !initiator
      modifies this`handshakeDigest, this`chainingKey, this`remoteEphemeral, cipher
      ensures actOne[0] != HANDSHAKE_VERSION ==> !ok && View() == old(View())
      ensures actOne[0] == HANDSHAKE_VERSION ==>
        N.ReadMessage(s, old(View()), N.XK[0], actOne[1..]) == N.Received(ok, View())
    {
      if actOne[0] != HANDSHAKE_VERSION {
        return false;
      }
      var e, p := actOne[1..34], actOne[34..];
      assert actOne[1..][..33] == e && actOne[1..][33..] == p && actOne[1..][33..33] == [];
      remoteEphemeral := s.parse(e);
      if remoteEphemeral.None? {
        return false;
      }
      MixHash(s, s.serialize(remoteEphemeral.value));
      MixKey(s, s.dh(localStatic, remoteEphemeral.value));
      var plain := DecryptAndHash(s, p);
      ok := plain.Some?;
    }

    method GenActTwo(s: Suite, generated: Option<PrivKey>) returns (packet: Option<ByteString>)
      requires !initiator && remoteEphemeral.Some?
      modifies this`handshakeDigest, this`chainingKey, this`localEphemeral, cipher
      ensures generated.None? ==> packet == None && View() == old(View())
      ensures generated.Some? ==>
        var (w, out) := N.WriteMessage(s, old(View()), N.XK[1], generated.value);
        View() == w && packet == Some([HANDSHAKE_VERSION] + out)
    {
      if generated.None? {
        return None;
      }
      localEphemeral := generated;
      var ephemeral := s.serialize(s.pub(generated.value));
      MixHash(s, ephemeral);
      MixKey(s, s.dh(generated.value, remoteEphemeral.value));
      var authPayload := EncryptAndHash(s, []);
      assert ephemeral + authPayload == ephemeral + [] + authPayload;
      packet := Some([HANDSHAKE_VERSION] + (ephemeral + authPayload));
    }

    method RecvActTwo(s: Suite, actTwo: ByteString) returns (ok: bool)
      requires |actTwo| == ACT_TWO_SIZE && initiator && localEphemeral.Some?
      modifies this`handshakeDigest, this`chainingKey, this`remoteEphemeral, cipher
      ensures actTwo[0] != HANDSHAKE_VERSION ==> !ok && View() == old(View())
      ensures actTwo[0] == HANDSHAKE_VERSION ==>
        N.ReadMessage(s, old(View()), N.XK[1], actTwo[1..]) == N.Received(ok, View())
    {
      if actTwo[0] != HANDSHAKE_VERSION {
        return false;
      }
      var e, p := actTwo[1..34], actTwo[34..];
      assert actTwo[1..][..33] == e && actTwo[1..][33..] == p && actTwo[1..][33..33] == [];
      remoteEphemeral := s.parse(e);
      if remoteEphemeral.None? {
        return false;
      }
      MixHash(s, s.serialize(remoteEphemeral.value));
      MixKey(s, s.dh(localEphemeral.value, remoteEphemeral.value));
      var plain := DecryptAndHash(s, p);
      ok := plain.Some?;
    }

    method GenActThree(s: Suite) returns (packet: ByteString)
      requires Valid() && initiator && remoteEphemeral.Some?
      modifies this`handshakeDigest, this`chainingKey, cipher, sendCipher, recvCipher
      ensures var (w, out) := N.WriteMessage(s, old(View()), N.XK[2], localStatic);
              View() == w && packet == [HANDSHAKE_VERSION] + out
      ensures (sendCipher.View(), recvCipher.View()) == N.Split(s, View().sym)
    {
      var ciphertext := EncryptAndHash(s, s.serialize(s.pub(localStatic)));
      MixKey(s, s.dh(localStatic, remoteEphemeral.value));
      var authPayload := EncryptAndHash(s, []);
      assert ciphertext + authPayload == ciphertext + [] + authPayload;
      packet := [HANDSHAKE_VERSION] + (ciphertext + authPayload);
      Split(s);
    }

    method RecvActThree(s: Suite, actThree: ByteString) returns (ok: bool)
      requires Valid() && |actThree| == ACT_THREE_SIZE && !initiator && localEphemeral.Some?
      modifies this`handshakeDigest, this`chainingKey, this`remoteStatic, cipher, sendCipher, recvCipher
      ensures actThree[0] != HANDSHAKE_VERSION ==> !ok && View() == old(View())
      ensures actThree[0] == HANDSHAKE_VERSION ==>
        N.ReadMessage(s, old(View()), N.XK[2], actThree[1..]) == N.Received(ok, View())
      ensures ok ==> (recvCipher.View(), sendCipher.View()) == N.Split(s, View().sym)
      ensures !ok ==> sendCipher.View() == old(sendCipher.View()) && recvCipher.View() == old(recvCipher.View())
    {
      if actThree[0] != HANDSHAKE_VERSION {
        return false;
      }
      var ct, p := actThree[1..50], actThree[50..];
      assert actThree[1..][..49] == ct && actThree[1..][49..] == p && actThree[1..][49..49] == [];
      var remotePub := DecryptAndHash(s, ct);
      if remotePub.None? {
        return false;
      }
      remoteStatic := s.parse(remotePub.value);
      if remoteStatic.None? {
        return false;
      }
      MixKey(s, s.dh(localEphemeral.value, remoteStatic.value));
      var plain := DecryptAndHash(s, p);
      if plain.None? {
        return false;
      }
      Split(s);
      ok := true;
    }

    method Split(s: Suite)
      requires Valid()
      modifies sendCipher, recvCipher
      ensures initiator ==> (sendCipher.View(), recvCipher.View()) == N.Split(s, View().sym)
      ensures !initiator ==> (recvCipher.View(), sendCipher.View()) == N.Split(s, View().sym)
    {
      var (first, second) := s.hkdf([], chainingKey);
      if initiator {
        sendCipher.InitializeKeyWithSalt(chainingKey, first);
        recvCipher.InitializeKeyWithSalt(chainingKey, second);
      } else {
        recvCipher.InitializeKeyWithSalt(chainingKey, first);
        sendCipher.InitializeKeyWithSalt(chainingKey, second);
      }
    }

    // -------------------------------------------------------------------------------------
    // Records
    // -------------------------------------------------------------------------------------

    /** Buffers one record. A refused message leaves the cipher and the buffer as they were. */
    method WriteMessage(s: Suite, p: ByteString) returns (err: Option<WriteError>)
      modifies this`nextHeaderSend, this`nextBodySend, sendCipher
      ensures err.None? <==> |p| <= MAX_PAYLOAD && old(nextHeaderSend) == [] && old(nextBodySend) == []
      ensures err == Some(MaxMessageLengthExceeded) <==> |p| > MAX_PAYLOAD
      ensures err.Some? ==>
        && sendCipher.View() == old(sendCipher.View())
        && nextHeaderSend == old(nextHeaderSend) && nextBodySend == old(nextBodySend)
      ensures err.None? ==>
        && sendCipher.View() == Next(s, Next(s, old(sendCipher.View())))
        && nextHeaderSend == HeaderOf(s, old(sendCipher.View()), p)
        && nextBodySend == BodyOf(s, old(sendCipher.View()), p)
    {
      if |p| > MAX_PAYLOAD {
        return Some(MaxMessageLengthExceeded);
      }
      if |nextHeaderSend| > 0 || |nextBodySend| > 0 {
        return Some(MessageNotFlushed);
      }
      nextHeaderSend := sendCipher.Encrypt(s, [], BigEndian16(|p|));
      nextBodySend := sendCipher.Encrypt(s, [], p);
      err := None;
    }

    /** Writes what is pending, header before body, and counts payload bytes only. */
    method Flush(w: Writer) returns (nn: nat, failed: bool)
      modifies this`nextHeaderSend, this`nextBodySend, w
      ensures Suffix(old(nextHeaderSend), nextHeaderSend) && Suffix(old(nextBodySend), nextBodySend)
      ensures nextBodySend != old(nextBodySend) ==> nextHeaderSend == []
      ensures old(w.sent) <= w.sent
      ensures w.sent + nextHeaderSend + nextBodySend == old(w.sent + nextHeaderSend + nextBodySend)
      ensures PayloadLeft(|nextBodySend|) + nn == PayloadLeft(|old(nextBodySend)|)
      ensures !failed ==> nextHeaderSend == [] && nextBodySend == [] && w.faults == old(w.faults)
      ensures failed ==> old(w.faults) > 0 && w.faults == old(w.faults) - 1
      ensures failed ==> old(nextHeaderSend) != [] || old(nextBodySend) != []
    {
      if |nextHeaderSend| > 0 {
        var n, err := w.Write(nextHeaderSend);
        FrontLeaves(old(w.sent), nextHeaderSend, n, nextBodySend);
        nextHeaderSend := nextHeaderSend[n..];
        if err {
          return 0, true;
        }
      }
      nn := 0;
      if |nextBodySend| > 0 {
        ghost var sent := w.sent;
        var n, err := w.Write(nextBodySend);
        FrontLeaves(sent, nextBodySend, n, []);
        nextBodySend := nextBodySend[n..];
        var start, end := n + |nextBodySend|, |nextBodySend|;
        if start > MAC_SIZE && end <= MAC_SIZE {
          nn := n - (MAC_SIZE - end);
        } else if start > MAC_SIZE && end > MAC_SIZE {
          nn := n;
        }
        if err {
          return nn, true;
        }
      }
      failed := false;
    }

    /** Any number of retried flushes: nothing is lost, reordered or counted twice. */
    method FlushRetrying(w: Writer, attempts: nat) returns (total: nat)
      modifies this`nextHeaderSend, this`nextBodySend, w
      ensures w.sent + nextHeaderSend + nextBodySend == old(w.sent + nextHeaderSend + nextBodySend)
      ensures total == PayloadLeft(|old(nextBodySend)|) - PayloadLeft(|nextBodySend|)
      ensures nextBodySend == [] ==> total == PayloadLeft(|old(nextBodySend)|)
      ensures attempts > old(w.faults) ==> nextHeaderSend == [] && nextBodySend == []
    {
      total := 0;
      for i := 0 to attempts
        invariant w.faults + i == old(w.faults)
        invariant w.sent + nextHeaderSend + nextBodySend == old(w.sent + nextHeaderSend + nextBodySend)
        invariant total + PayloadLeft(|nextBodySend|) == PayloadLeft(|old(nextBodySend)|)
      {
        var n, failed := Flush(w);
        total := total + n;
        if !failed {
          return;
        }
      }
    }

    /**
     One message and any number of retries: once nothing is pending its frame is on the wire and it is counted
     in full.
     */
    method SendMessage(s: Suite, w: Writer, p: ByteString, attempts: nat) returns (err: Option<WriteError>, total: nat)
      requires LawfulAead(s)
      modifies this`nextHeaderSend, this`nextBodySend, sendCipher, w
      ensures err.None? <==> |p| <= MAX_PAYLOAD && old(nextHeaderSend) == [] && old(nextBodySend) == []
      ensures err.Some? ==> total == 0 && w.sent == old(w.sent) && sendCipher.View() == old(sendCipher.View())
      ensures err.None? ==> total + PayloadLeft(|nextBodySend|) == |p|
      ensures err.None? && nextHeaderSend == [] && nextBodySend == [] ==>
        total == |p| && w.sent == old(w.sent) + Frame(s, old(sendCipher.View()), p)
      ensures err.None? && attempts > old(w.faults) ==> nextHeaderSend == [] && nextBodySend == []
    {
      err := WriteMessage(s, p);
      if err.Some? {
        return err, 0;
      }
      ghost var c, sent := old(sendCipher.View()), w.sent;
      FrameSize(s, c, p);
      Reassociate(sent, HeaderOf(s, c, p), BodyOf(s, c, p));
      total := FlushRetrying(w, attempts);
      assert w.sent + [] + [] == w.sent;
    }

    method ReadHeader(s: Suite, r: Reader) returns (pktLen: Option<nat>)
      modifies r, recvCipher
      ensures |old(r.input)| < ENC_HEADER_SIZE ==>
        pktLen == None && r.input == [] && recvCipher.View() == old(recvCipher.View())
      ensures |old(r.input)| >= ENC_HEADER_SIZE ==>
        && pktLen == OpenHeader(s, old(recvCipher.View()), old(r.input)[..ENC_HEADER_SIZE])
        && r.input == old(r.input)[ENC_HEADER_SIZE..]
        && recvCipher.View() == Next(s, old(recvCipher.View()))
    {
      var header := r.ReadFull(ENC_HEADER_SIZE);
      if header.None? {
        return None;
      }
      var pktLenBytes := recvCipher.Decrypt(s, [], header.value);
      if pktLenBytes.None? || |pktLenBytes.value| != LENGTH_HEADER_SIZE {
        return None;
      }
      pktLen := Some(Uint16(pktLenBytes.value) + MAC_SIZE);
    }

    method ReadBody(s: Suite, r: Reader, size: nat) returns (plain: Option<ByteString>)
      modifies r, recvCipher
      ensures |old(r.input)| < size ==>
        plain == None && r.input == [] && recvCipher.View() == old(recvCipher.View())
      ensures |old(r.input)| >= size ==>
        && plain == OpenBody(s, old(recvCipher.View()), old(r.input)[..size])
        && r.input == old(r.input)[size..]
        && recvCipher.View() == Next(s, old(recvCipher.View()))
    {
      var body := r.ReadFull(size);
      if body.None? {
        return None;
      }
      plain := recvCipher.Decrypt(s, [], body.value);
    }
  }

  ghost predicate Suffix(whole: ByteString, end: ByteString) {
    |end| <= |whole| && end == whole[|whole| - |end|..]
  }

  /** Two machines that agree after `acts` acts, sharing no state. */
  ghost predicate InStep(s: Suite, acts: nat, i: Machine, r: Machine)
    reads i, i.cipher, r, r.cipher
  {
    && i != r && i.Valid() && r.Valid()
    && {i.cipher, i.sendCipher, i.recvCipher} !! {r.cipher, r.sendCipher, r.recvCipher}
    && i.nextHeaderSend == i.nextBodySend == r.nextHeaderSend == r.nextBodySend == []
    && N.Agree(s, i.View(), r.View()) && N.Stage(acts, i.View(), r.View())
  }

  /** Both machines are where the act leaves them. */
  ghost predicate BothReached(i: Machine, r: Machine, act: T.Act)
    reads i, i.cipher, r, r.cipher
  {
    N.Reached(i.View().sym, act) && N.Reached(r.View().sym, act)
  }

  method ActOne(s: Suite, i: Machine, r: Machine, e: PrivKey) returns (ok: bool, packet: ByteString)
    requires Lawful(s) && InStep(s, 0, i, r)
    modifies i, i.cipher, r, r.cipher
    ensures ok && InStep(s, 1, i, r)
    ensures i.remoteStatic == old(i.remoteStatic) && r.remoteEphemeral == Some(s.pub(e))
    ensures
      var act := T.EphemeralAct(s, old(i.handshakeDigest), old(i.chainingKey), e, i.remoteStatic.value);
      packet == act.packet && BothReached(i, r, act)
  {
    ghost var i0 := i.View();
    N.ActAgrees(s, i0, r.View(), 0, e);
    N.EphemeralForm(s, i0, N.ES, e, i0.rs.value);
    var generated := i.GenActOne(s, Some(e));
    packet := generated.value;
    assert packet[1..] == N.WriteMessage(s, i0, N.XK[0], e).1;
    ok := r.RecvActOne(s, packet);
  }

  method ActTwo(s: Suite, i: Machine, r: Machine, e: PrivKey) returns (ok: bool, packet: ByteString)
    requires Lawful(s) && InStep(s, 1, i, r)
    modifies i, i.cipher, r, r.cipher
    ensures ok && InStep(s, 2, i, r)
    ensures i.remoteStatic == old(i.remoteStatic) && i.remoteEphemeral == Some(s.pub(e))
    ensures
      var act := T.EphemeralAct(s, old(r.handshakeDigest), old(r.chainingKey), e, old(r.remoteEphemeral).value);
      packet == act.packet && BothReached(i, r, act)
  {
    ghost var r0 := r.View();
    N.ActAgrees(s, i.View(), r0, 1, e);
    N.EphemeralForm(s, r0, N.EE, e, r0.re.value);
    var generated := r.GenActTwo(s, Some(e));
    packet := generated.value;
    assert packet[1..] == N.WriteMessage(s, r0, N.XK[1], e).1;
    ok := i.RecvActTwo(s, packet);
  }

  method ActThree(s: Suite, i: Machine, r: Machine) returns (ok: bool, packet: ByteString)
    requires Lawful(s) && InStep(s, 2, i, r) && i.cipher.nonce == 1
    modifies i, i.cipher, i.sendCipher, i.recvCipher, r, r.cipher, r.sendCipher, r.recvCipher
    ensures ok && InStep(s, 3, i, r)
    ensures i.remoteStatic == old(i.remoteStatic)
    ensures
      var act := T.StaticAct(s, old(i.handshakeDigest), old(i.chainingKey), old(i.cipher.secretKey),
                             i.localStatic, old(i.remoteEphemeral).value);
      packet == act.packet && BothReached(i, r, act)
    ensures i.sendCipher.View() == r.recvCipher.View() == Cipher(0, s.hkdf([], i.chainingKey).0, i.chainingKey)
    ensures i.recvCipher.View() == r.sendCipher.View() == Cipher(0, s.hkdf([], i.chainingKey).1, i.chainingKey)
  {
    ghost var i0 := i.View();
    N.ActAgrees(s, i0, r.View(), 2, i.localStatic);
    N.StaticForm(s, i0, i.localStatic, i0.re.value);
    packet := i.GenActThree(s);
    assert packet[1..] == N.WriteMessage(s, i0, N.XK[2], i.localStatic).1;
    ok := r.RecvActThree(s, packet);
    N.SplitForm(s, i.View().sym);
  }

  /**
   The three acts between an initiator holding the responder's static key and that responder: the packets, the digest
   and the keys each side ends with, written out over the primitives.
   */
  method Handshake(s: Suite, name: ByteString, prologue: ByteString,
                   initiatorKey: PrivKey, responderKey: PrivKey, e1: PrivKey, e2: PrivKey)
      returns (i: Machine, r: Machine, ok: bool, packets: seq<ByteString>)
    requires Lawful(s)
    ensures ok && InStep(s, 3, i, r)
    ensures fresh({i, r, i.sendCipher, i.recvCipher, r.sendCipher, r.recvCipher})
    ensures i.localStatic == initiatorKey && r.remoteStatic == Some(s.pub(initiatorKey))
    ensures r.localStatic == responderKey && i.remoteStatic == Some(s.pub(responderKey))
    ensures
      var (one, two, three) := T.Acts(s, name, prologue, initiatorKey, responderKey, e1, e2);
      && packets == [one.packet, two.packet, three.packet]
      && i.handshakeDigest == r.handshakeDigest == three.h
    ensures
      var ck1 := s.hkdf(s.dh(e1, s.pub(responderKey)), s.hash(name)).0;
      var ck2 := s.hkdf(s.dh(e2, s.pub(e1)), ck1).0;
      var ck3 := s.hkdf(s.dh(initiatorKey, s.pub(e2)), ck2).0;
      && i.sendCipher.View() == r.recvCipher.View() == Cipher(0, s.hkdf([], ck3).0, ck3)
      && i.recvCipher.View() == r.sendCipher.View() == Cipher(0, s.hkdf([], ck3).1, ck3)
  {
    i := new Machine(s, true, name, prologue, initiatorKey, Some(s.pub(responderKey)));
    r := new Machine(s, false, name, prologue, responderKey, None);
    N.InitialForm(s, true, name, prologue, initiatorKey, Some(s.pub(responderKey)));
    N.InitialForm(s, false, name, prologue, responderKey, None);
    var one, two, three;
    ok, one := ActOne(s, i, r, e1);
    ok, two := ActTwo(s, i, r, e2);
    ok, three := ActThree(s, i, r);
    packets := [one, two, three];
  }
}
