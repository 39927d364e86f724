/** A whole connection: handshake, any writes, any reads. */
module EndToEnd {
  import opened Bytes
  import opened Primitives
  import opened TransportCipher
  import opened Records
  import opened Transport
  import opened Machine
  import opened Conn

  lemma ShortFrame(s: Suite, c: Cipher, p: Record, input: ByteString, more: ByteString)
    requires LawfulAead(s) && |input| < |Frame(s, c, p)| && input <= Frame(s, c, p) + more
    ensures Fetch(s, c, input).Ended?
  {
    FrameSize(s, c, p);
    FrameOpens(s, c, p);
    if |input| >= ENC_HEADER_SIZE {
      assert input[..ENC_HEADER_SIZE] == (Frame(s, c, p) + more)[..ENC_HEADER_SIZE] == HeaderOf(s, c, p);
    }
  }

  /** What is fetched from `input` is the data of the first `k` of the records, and leaves the input behind them. */
  ghost predicate Takes(s: Suite, c: Cipher, rest: seq<Record>, input: ByteString, k: nat) {
    && k <= |rest|
    && var f := Fetch(s, c, input);
      && f.Fetched? && f.cipher == After(s, c, 2 * k) && f.plain == Concat(rest[..k])
      && input == Stream(s, c, rest[..k]) + f.rest
  }

  lemma TakesData(s: Suite, c: Cipher, rest: seq<Record>, input: ByteString)
    requires LawfulAead(s) && rest != [] && rest[0] != []
    ensures Takes(s, c, rest, Frame(s, c, rest[0]) + input, 1)
  {
    FetchOne(s, c, rest[0], input);
    OneTaken(s, c, rest);
  }

  lemma OneTaken(s: Suite, c: Cipher, rest: seq<Record>)
    requires rest != []
    ensures Concat(rest[..1]) == rest[0] && Stream(s, c, rest[..1]) == Frame(s, c, rest[0])
  {
    var p := rest[0];
    assert rest[..1] == [] + [p];
    AnotherRecord(s, c, [], p);
    OneRecord(s, c, p);
  }

  lemma TakesPastEmpty(s: Suite, c: Cipher, rest: seq<Record>, input: ByteString, k: nat)
    requires LawfulAead(s) && rest != [] && rest[0] == [] && Takes(s, After(s, c, 2), rest[1..], input, k)
    ensures Takes(s, c, rest, Frame(s, c, rest[0]) + input, k + 1)
  {
    FetchOne(s, c, rest[0], input);
    FirstTaken(s, c, rest, k + 1);
    AfterRecord(s, c, k);
    var frame, f := Frame(s, c, rest[0]), Fetch(s, After(s, c, 2), input);
    Reassociate(frame, Stream(s, After(s, c, 2), rest[1..][..k]), f.rest);
  }

  /** What is fetched is the first remaining records up to the first with data. */
  lemma {:induction false} FetchTakes(s: Suite, c: Cipher, rest: seq<Record>, input: ByteString) returns (k: nat)
    requires LawfulAead(s) && input <= Stream(s, c, rest)
    ensures Fetch(s, c, input).Fetched? ==> Takes(s, c, rest, input, k)
    decreases |rest|
  {
    k := 0;
    if rest != [] {
      var frame, more := Frame(s, c, rest[0]), Stream(s, After(s, c, 2), rest[1..]);
      if |input| < |frame| {
        ShortFrame(s, c, rest[0], input, more);
      } else {
        var input' := SplitFront(input, frame, more);
        if rest[0] == [] {
          k := FetchTakes(s, After(s, c, 2), rest[1..], input');
          FetchOne(s, c, rest[0], input');
          if Fetch(s, c, input).Fetched? {
            TakesPastEmpty(s, c, rest, input', k);
          }
          k := k + 1;
        } else {
          TakesData(s, c, rest, input');
          k := 1;
        }
      }
    }
  }

  /** Only a stream without data ends a fetch that has all of it. */
  lemma {:induction false} EndedIsEmpty(s: Suite, c: Cipher, rest: seq<Record>)
    requires LawfulAead(s) && Fetch(s, c, Stream(s, c, rest)).Ended?
    ensures Concat(rest) == []
    decreases |rest|
  {
    if rest != [] {
      FetchOne(s, c, rest[0], Stream(s, After(s, c, 2), rest[1..]));
      EndedIsEmpty(s, After(s, c, 2), rest[1..]);
    }
  }

  lemma SplitFront(input: ByteString, frame: ByteString, more: ByteString) returns (input': ByteString)
    requires input <= frame + more && |frame| <= |input|
    ensures input == frame + input' && input' <= more
  {
    input' := input[|frame|..];
  }

  lemma FirstTaken(s: Suite, c: Cipher, rest: seq<Record>, k: nat)
    requires 0 < k <= |rest|
    ensures Concat(rest[..k]) == rest[0] + Concat(rest[1..][..k - 1])
    ensures Stream(s, c, rest[..k]) == Frame(s, c, rest[0]) + Stream(s, After(s, c, 2), rest[1..][..k - 1])
  {
    assert rest[..k][0] == rest[0] && rest[..k][1..] == rest[1..][..k - 1];
  }

  /**
   A fetch over a wire that carries a prefix of the stream of `rest` yields the first record with data,
   or ends because no complete one is there.
   */
  lemma FetchPrefix(s: Suite, c: Cipher, rest: seq<Record>, input: ByteString) returns (after: seq<Record>)
    requires LawfulAead(s) && input <= Stream(s, c, rest)
    ensures match Fetch(s, c, input)
            case Fetched(c', input', p) => Concat(rest) == p + Concat(after) && input' <= Stream(s, c', after)
              && (input == Stream(s, c, rest) ==> input' == Stream(s, c', after))
            case Ended(_, _) => after == rest && (input == Stream(s, c, rest) ==> Concat(rest) == [])
  {
    var k := FetchTakes(s, c, rest, input);
    after := rest;
    if Fetch(s, c, input).Fetched? {
      after := rest[k..];
      assert rest == rest[..k] + after;
      ConcatAppend(rest[..k], after);
      StreamAppend(s, c, rest[..k], after);
      SameFront(Stream(s, c, rest[..k]), Fetch(s, c, input).rest, Stream(s, After(s, c, 2 * k), after));
    } else if input == Stream(s, c, rest) {
      EndedIsEmpty(s, c, rest);
    }
  }

  lemma SameFront(front: ByteString, a: ByteString, b: ByteString)
    requires front + a <= front + b
    ensures a <= b && (front + a == front + b ==> a == b)
  {
    assert (front + a)[|front|..] == a && (front + b)[|front|..] == b;
    assert (front + b)[..|front + a|] == front + a;
  }

  lemma Cancel(a: ByteString, b: ByteString, c: ByteString, x: ByteString)
    requires (a + b) + c == a + x
    ensures b + c == x
  {
    assert ((a + b) + c)[|a|..] == b + c && (a + x)[|a|..] == x;
  }

  /** One read keeps the account: handed out, buffered and still to come add up to what was to come. */
  method ReadOnce(s: Suite, conn: Conn, r: Reader, size: nat, ghost rest: seq<Record>)
      returns (data: ByteString, failed: bool, ghost after: seq<Record>)
    requires LawfulAead(s) && r.input <= Stream(s, conn.noise.recvCipher.View(), rest)
    modifies conn, r, conn.noise.recvCipher
    ensures data + conn.readBuf + Concat(after) == old(conn.readBuf) + Concat(rest)
    ensures !failed ==> r.input <= Stream(s, conn.noise.recvCipher.View(), after) && (size > 0 ==> data != [])
    ensures old(r.input == Stream(s, conn.noise.recvCipher.View(), rest)) ==>
      if failed then data == [] && conn.readBuf == [] && Concat(after) == []
      else r.input == Stream(s, conn.noise.recvCipher.View(), after)
  {
    after := rest;
    if conn.readBuf == [] {
      after := FetchPrefix(s, conn.noise.recvCipher.View(), rest, r.input);
    }
    data, failed := conn.Read(s, r, size);
  }

  lemma Moved(out: ByteString, buf: ByteString, rest: ByteString, data: ByteString, buf': ByteString, rest': ByteString)
    requires data + buf' + rest' == buf + rest
    ensures (out + data) + buf' + rest' == out + buf + rest
  {
    assert (out + data) + buf' + rest' == out + (data + buf' + rest');
    assert out + buf + rest == out + (buf + rest);
  }

  method ReadMany(s: Suite, conn: Conn, r: Reader, sizes: seq<nat>, ghost rest: seq<Record>)
      returns (out: ByteString, failed: bool)
    requires LawfulAead(s) && r.input <= Stream(s, conn.noise.recvCipher.View(), rest)
    modifies conn, r, conn.noise.recvCipher
    ensures out <= old(conn.readBuf) + Concat(rest)
    ensures failed && old(r.input == Stream(s, conn.noise.recvCipher.View(), rest)) ==>
      out == old(conn.readBuf) + Concat(rest)
    ensures !failed && AllPositive(sizes) ==> |out| >= |sizes|
  {
    ghost var buf0, cipher0 := conn.readBuf, conn.noise.recvCipher.View();
    ghost var full := r.input == Stream(s, cipher0, rest);
    ghost var left := rest;
    out, failed := [], false;
    for i := 0 to |sizes|
      invariant !failed && (AllPositive(sizes) ==> |out| >= i)
      invariant out + conn.readBuf + Concat(left) == buf0 + Concat(rest)
      invariant Agrees(r.input, Stream(s, conn.noise.recvCipher.View(), left), full)
    {
      ghost var buffered, after := conn.readBuf, [];
      var data;
      data, failed, after := ReadOnce(s, conn, r, sizes[i], left);
      Moved(out, buffered, Concat(left), data, conn.readBuf, Concat(after));
      out, left := out + data, after;
      if failed {
        break;
      }
    }
    assert out <= out + conn.readBuf + Concat(left);
    assert out + [] + [] == out;
  }

  ghost predicate Agrees(input: ByteString, stream: ByteString, full: bool) {
    input <= stream && (full ==> input == stream)
  }

  /** Writes until one fails; the records handed over carry a prefix of what was asked to be written. */
  method WriteMany(s: Suite, conn: Conn, w: Writer, writes: seq<ByteString>)
      returns (failed: bool, ghost accepted: seq<Record>)
    requires LawfulAead(s) && conn.Idle() && w.sent == []
    modifies conn.noise`nextHeaderSend, conn.noise`nextBodySend, conn.noise.sendCipher, w
    ensures w.sent <= Stream(s, old(conn.noise.sendCipher.View()), accepted)
    ensures Concat(accepted) <= Concat(writes)
    ensures !failed ==>
      Concat(accepted) == Concat(writes) && w.sent == Stream(s, old(conn.noise.sendCipher.View()), accepted)
    ensures failed ==> old(w.faults) > 0
  {
    ghost var c := conn.noise.sendCipher.View();
    accepted := [];
    failed := false;
    for i := 0 to |writes|
      invariant conn.Idle() && !failed && w.faults <= old(w.faults)
      invariant conn.noise.sendCipher.View() == After(s, c, 2 * |accepted|)
      invariant w.sent == Stream(s, c, accepted)
      invariant Concat(accepted) == Concat(writes[..i])
    {
      ghost var more;
      var n;
      ghost var sent := w.sent;
      n, failed, more := conn.Write(s, w, writes[i]);
      assert w.sent + conn.noise.nextHeaderSend + conn.noise.nextBodySend
        == sent + Stream(s, After(s, c, 2 * |accepted|), more) by {
        assert sent + [] + [] == sent;
      }
      Accounted(s, c, accepted, more, writes, i);
      accepted := accepted + more;
      if failed {
        return;
      }
    }
    assert writes[..|writes|] == writes;
  }

  lemma ConcatAt(writes: seq<ByteString>, i: nat)
    requires i < |writes|
    ensures Concat(writes[..i + 1]) == Concat(writes[..i]) + writes[i]
    ensures Concat(writes[..i + 1]) <= Concat(writes)
  {
    TakeOneMore(writes, i);
    ConcatSnoc(writes[..i], writes[i]);
    ConcatAppend(writes[..i + 1], writes[i + 1..]);
  }

  lemma Accounted(s: Suite, c: Cipher, accepted: seq<Record>, more: seq<Record>, writes: seq<ByteString>, i: nat)
    requires i < |writes| && Concat(accepted) == Concat(writes[..i]) && Concat(more) <= writes[i]
    ensures Stream(s, c, accepted) + Stream(s, After(s, c, 2 * |accepted|), more) == Stream(s, c, accepted + more)
    ensures After(s, After(s, c, 2 * |accepted|), 2 * |more|) == After(s, c, 2 * |accepted + more|)
    ensures Concat(accepted + more) <= Concat(writes)
    ensures Concat(more) == writes[i] ==> Concat(accepted + more) == Concat(writes[..i + 1])
  {
    StreamAppend(s, c, accepted, more);
    AfterAdds(s, c, 2 * |accepted|, 2 * |more|, 2 * |accepted + more|);
    ConcatAppend(accepted, more);
    ConcatAt(writes, i);
  }

  /** Writes on one side, then reads on the other until the stream ends. */
  method WriteThenRead(s: Suite, sender: Conn, receiver: Conn, writes: seq<ByteString>, sizes: seq<nat>, faults: nat)
      returns (out: ByteString, writeFailed: bool, atEnd: bool)
    requires LawfulAead(s) && sender.Idle() && receiver.readBuf == [] && sender.noise != receiver.noise
    requires sender.noise.sendCipher != receiver.noise.recvCipher
    requires sender.noise.sendCipher.View() == receiver.noise.recvCipher.View()
    modifies sender.noise`nextHeaderSend, sender.noise`nextBodySend, sender.noise.sendCipher
    modifies receiver, receiver.noise.recvCipher
    ensures out <= Concat(writes)
    ensures !writeFailed && atEnd ==> out == Concat(writes)
    ensures writeFailed ==> faults > 0
    ensures AllPositive(sizes) && |sizes| > |Concat(writes)| ==> atEnd
  {
    var w := new Writer(faults);
    ghost var accepted;
    writeFailed, accepted := WriteMany(s, sender, w, writes);
    var input := new Reader(w.sent);
    out, atEnd := ReadMany(s, receiver, input, sizes, accepted);
    assert [] + Concat(accepted) == Concat(accepted);
  }

  /**
   After the handshake, whatever the initiator writes over a transport that may fail at any point, and
   in whatever sizes the responder reads, the bytes read are a prefix of the bytes written; when no
   write failed and the responder reads to the end, they are all of them. Reads that ask for something get there.
   */
  method Connection(s: Suite, name: ByteString, prologue: ByteString, initiatorKey: PrivKey, responderKey: PrivKey,
                    e1: PrivKey, e2: PrivKey, writes: seq<ByteString>, sizes: seq<nat>, faults: nat)
      returns (out: ByteString, writeFailed: bool, atEnd: bool)
    requires Lawful(s)
    ensures out <= Concat(writes)
    ensures !writeFailed && atEnd ==> out == Concat(writes)
    ensures writeFailed ==> faults > 0
    ensures AllPositive(sizes) && |sizes| > |Concat(writes)| ==> atEnd
  {
    var i, r, ok, packets := Handshake(s, name, prologue, initiatorKey, responderKey, e1, e2);
    var sender := new Conn(i);
    var receiver := new Conn(r);
    out, writeFailed, atEnd := WriteThenRead(s, sender, receiver, writes, sizes, faults);
  }
}
