/** The stream abstraction over records: chunked writes and buffered reads. */
module Conn {
  import opened Bytes
  import opened Primitives
  import opened TransportCipher
  import opened Records
  import opened Transport
  import opened Machine

  function Min(a: nat, b: nat): nat {
    if a < b then a else b
  }

  // ---------------------------------------------------------------------------------------
  // What a read with an empty buffer does to the receiving side
  // ---------------------------------------------------------------------------------------

  datatype Fetched =
    | Fetched(cipher: Cipher, rest: ByteString, plain: ByteString)
    | Ended(cipher: Cipher, rest: ByteString)

  /** Records are opened until one carries data; a stream that ends or fails to open ends the read. */
  function Fetch(s: Suite, c: Cipher, input: ByteString): (f: Fetched)
    ensures f.Fetched? ==> f.plain != []
    decreases |input|
  {
    if |input| < ENC_HEADER_SIZE then Ended(c, [])
    else
      var size, rest := OpenHeader(s, c, input[..ENC_HEADER_SIZE]), input[ENC_HEADER_SIZE..];
      var d := Next(s, c);
      if size.None? then Ended(d, rest)
      else if |rest| < size.value then Ended(d, [])
      else
        var plain := OpenBody(s, d, rest[..size.value]);
        var e := Next(s, d);
        if plain.None? then Ended(e, rest[size.value..])
        else if plain.value == [] then Fetch(s, e, rest[size.value..])
        else Fetched(e, rest[size.value..], plain.value)
  }

  lemma FetchOne(s: Suite, c: Cipher, p: Record, tail: ByteString)
    requires LawfulAead(s)
    ensures Fetch(s, c, Frame(s, c, p) + tail) ==
      if p == [] then Fetch(s, After(s, c, 2), tail) else Fetched(After(s, c, 2), tail, p)
  {
    FrameSize(s, c, p);
    FrameOpens(s, c, p);
    AfterTwo(s, c);
    var input := Frame(s, c, p) + tail;
    var rest := BodyOf(s, c, p) + tail;
    assert input[..ENC_HEADER_SIZE] == HeaderOf(s, c, p) && input[ENC_HEADER_SIZE..] == rest;
    assert rest[..|p| + MAC_SIZE] == BodyOf(s, c, p) && rest[|p| + MAC_SIZE..] == tail;
  }

  /** Any number of empty records before the first one with data are passed over. */
  lemma {:induction false} FetchSkipsEmpty(s: Suite, c: Cipher, records: seq<Record>, p: Record, tail: ByteString)
    requires LawfulAead(s) && p != []
    requires forall r :: r in records ==> r == []
    ensures Fetch(s, c, Stream(s, c, records + [p]) + tail) == Fetched(After(s, c, 2 * (|records| + 1)), tail, p)
    decreases |records|
  {
    if records == [] {
      OneRecord(s, c, p);
      assert records + [p] == [] + [p];
      FetchOne(s, c, p, tail);
    } else {
      var rest, d := records[1..], After(s, c, 2);
      assert records[0] in records && forall r :: r in rest ==> r in records;
      var after := Stream(s, d, rest + [p]) + tail;
      assert Stream(s, c, records + [p]) + tail == Frame(s, c, []) + after by {
        assert (records + [p])[0] == [] && (records + [p])[1..] == rest + [p];
      }
      FetchOne(s, c, [], after);
      FetchSkipsEmpty(s, d, rest, p, tail);
      AfterRecord(s, c, |records|);
    }
  }

  class Conn {
    const noise: Machine
    var readBuf: ByteString

    constructor (noise: Machine)
      ensures this.noise == noise && readBuf == []
    {
      this.noise := noise;
      readBuf := [];
    }

    method ReadMessage(s: Suite, r: Reader) returns (plain: Option<ByteString>)
      modifies r, noise.recvCipher
      ensures |r.input| < |old(r.input)| || plain.None?
      ensures Fetch(s, old(noise.recvCipher.View()), old(r.input)) ==
        if plain.None? then Ended(noise.recvCipher.View(), r.input)
        else if plain.value == [] then Fetch(s, noise.recvCipher.View(), r.input)
        else Fetched(noise.recvCipher.View(), r.input, plain.value)
    {
      var size := noise.ReadHeader(s, r);
      if size.None? {
        return None;
      }
      plain := noise.ReadBody(s, r, size.value);
    }

    /** Serves up to `size` bytes from the buffer, refilling it from the next record that carries data. */
    method Read(s: Suite, r: Reader, size: nat) returns (data: ByteString, failed: bool)
      modifies this, r, noise.recvCipher
      ensures old(readBuf) != [] ==>
        && !failed && data + readBuf == old(readBuf) && |data| == Min(size, |old(readBuf)|)
        && r.input == old(r.input) && noise.recvCipher.View() == old(noise.recvCipher.View())
      ensures old(readBuf) == [] ==>
        match Fetch(s, old(noise.recvCipher.View()), old(r.input))
        case Fetched(c, rest, plain) =>
          && !failed && data + readBuf == plain && |data| == Min(size, |plain|)
          && r.input == rest && noise.recvCipher.View() == c
        case Ended(c, rest) =>
          failed && data == [] && readBuf == [] && r.input == rest && noise.recvCipher.View() == c
    {
      while |readBuf| == 0
        invariant old(readBuf) != [] ==>
          readBuf == old(readBuf) && r.input == old(r.input) && noise.recvCipher.View() == old(noise.recvCipher.View())
        invariant old(readBuf) == [] ==>
          Fetch(s, old(noise.recvCipher.View()), old(r.input)) ==
          if readBuf == [] then Fetch(s, noise.recvCipher.View(), r.input)
          else Fetched(noise.recvCipher.View(), r.input, readBuf)
        decreases |readBuf| == 0, |r.input|
      {
        var plain := ReadMessage(s, r);
        if plain.None? {
          return [], true;
        }
        readBuf := readBuf + plain.value;
      }
      var n := Min(size, |readBuf|);
      data, failed := readBuf[..n], false;
      readBuf := readBuf[n..];
    }

    /** Everything handed to the cipher so far that is on the wire or still to be flushed. */
    ghost function Outgoing(w: Writer): ByteString
      reads noise, w
    {
      w.sent + noise.nextHeaderSend + noise.nextBodySend
    }

    ghost predicate Idle()
      reads noise
    {
      noise.nextHeaderSend == [] && noise.nextBodySend == []
    }

    /** One WriteMessage followed by one Flush. */
    method Send(s: Suite, w: Writer, p: Record) returns (n: nat, failed: bool, ghost taken: bool)
      requires LawfulAead(s)
      modifies noise`nextHeaderSend, noise`nextBodySend, noise.sendCipher, w
      ensures taken == old(Idle())
      ensures old(w.sent) <= w.sent
      ensures !taken ==>
        failed && n == 0 && Outgoing(w) == old(Outgoing(w)) && noise.sendCipher.View() == old(noise.sendCipher.View())
      ensures taken ==>
        && Outgoing(w) == old(Outgoing(w)) + Frame(s, old(noise.sendCipher.View()), p)
        && noise.sendCipher.View() == After(s, old(noise.sendCipher.View()), 2)
        && n + PayloadLeft(|noise.nextBodySend|) == |p|
      ensures !failed ==> taken && Idle()
      ensures w.faults <= old(w.faults) && (taken && failed ==> w.faults < old(w.faults))
    {
      ghost var c := noise.sendCipher.View();
      var err := noise.WriteMessage(s, p);
      if err.Some? {
        return 0, true, false;
      }
      AfterTwo(s, c);
      FrameSize(s, c, p);
      Buffered(w.sent, HeaderOf(s, c, p), BodyOf(s, c, p));
      taken := true;
      n, failed := noise.Flush(w);
    }

    /**
     Sends `b` as one record, or as maximal records when it is longer. `accepted` lists the records
     handed to the cipher, and `n` counts their payload bytes on the wire.
     */
    method Write(s: Suite, w: Writer, b: ByteString) returns (n: nat, failed: bool, ghost accepted: seq<Record>)
      requires LawfulAead(s)
      modifies noise`nextHeaderSend, noise`nextBodySend, noise.sendCipher, w
      ensures old(w.sent) <= w.sent
      ensures Outgoing(w) == old(Outgoing(w)) + Stream(s, old(noise.sendCipher.View()), accepted)
      ensures noise.sendCipher.View() == After(s, old(noise.sendCipher.View()), 2 * |accepted|)
      ensures Concat(accepted) <= b
      ensures if old(Idle()) then n + PayloadLeft(|noise.nextBodySend|) == |Concat(accepted)|
              else failed && n == 0 && accepted == []
      ensures !failed ==> n == |b| && Concat(accepted) == b && Idle()
      ensures w.faults <= old(w.faults) && (old(Idle()) && failed ==> w.faults < old(w.faults))
    {
      if |b| <= MAX_PAYLOAD {
        ghost var taken;
        n, failed, taken := Send(s, w, b);
        accepted := if taken then [] + [b] else [];
        AnotherRecord(s, old(noise.sendCipher.View()), [], b);
        return;
      }
      n, failed, accepted := WriteChunks(s, w, b);
    }

    /** The first `n` bytes of `b` have been handed over as `accepted`, starting from `c0` and `out0`. */
    ghost predicate Handed(s: Suite, w: Writer, c0: Cipher, out0: ByteString, b: ByteString, n: nat,
                           accepted: seq<Record>)
      reads noise, noise.sendCipher, w
    {
      && n <= |b| && Concat(accepted) == b[..n]
      && noise.sendCipher.View() == After(s, c0, 2 * |accepted|)
      && Outgoing(w) == out0 + Stream(s, c0, accepted)
    }

    method SendChunk(s: Suite, w: Writer, b: ByteString, from: nat, size: nat,
                     ghost c0: Cipher, ghost out0: ByteString, ghost accepted: seq<Record>)
        returns (n: nat, failed: bool, ghost accepted': seq<Record>)
      requires LawfulAead(s) && 0 < size <= MAX_PAYLOAD && from + size <= |b|
      requires Handed(s, w, c0, out0, b, from, accepted)
      modifies noise`nextHeaderSend, noise`nextBodySend, noise.sendCipher, w
      ensures old(Idle()) ==>
        Handed(s, w, c0, out0, b, from + size, accepted') && n + PayloadLeft(|noise.nextBodySend|) == size
      ensures !old(Idle()) ==>
        failed && n == 0 && accepted' == accepted && Handed(s, w, c0, out0, b, from, accepted)
      ensures !failed ==> old(Idle()) && Idle() && n == size
      ensures w.faults <= old(w.faults) && (old(Idle()) && failed ==> w.faults < old(w.faults))
      ensures old(w.sent) <= w.sent
    {
      var chunk: Record := b[from..from + size];
      ghost var taken;
      n, failed, taken := Send(s, w, chunk);
      accepted' := if taken then accepted + [chunk] else accepted;
      ChunkHanded(s, c0, out0, b, from, chunk, accepted);
    }

    method WriteChunks(s: Suite, w: Writer, b: ByteString)
        returns (bytesWritten: nat, failed: bool, ghost accepted: seq<Record>)
      requires LawfulAead(s) && |b| > MAX_PAYLOAD
      modifies noise`nextHeaderSend, noise`nextBodySend, noise.sendCipher, w
      ensures old(w.sent) <= w.sent
      ensures Outgoing(w) == old(Outgoing(w)) + Stream(s, old(noise.sendCipher.View()), accepted)
      ensures noise.sendCipher.View() == After(s, old(noise.sendCipher.View()), 2 * |accepted|)
      ensures Concat(accepted) <= b
      ensures if old(Idle()) then bytesWritten + PayloadLeft(|noise.nextBodySend|) == |Concat(accepted)|
              else failed && bytesWritten == 0 && accepted == []
      ensures !failed ==> bytesWritten == |b| && Concat(accepted) == b && Idle()
      ensures w.faults <= old(w.faults) && (old(Idle()) && failed ==> w.faults < old(w.faults))
    {
      ghost var c0, out0 := noise.sendCipher.View(), Outgoing(w);
      accepted := [];
      var chunkSize := MAX_PAYLOAD;
      bytesWritten := 0;
      while bytesWritten < |b|
        invariant 0 < chunkSize <= MAX_PAYLOAD
        invariant Idle() == old(Idle()) && (!Idle() ==> bytesWritten == 0 && accepted == [])
        invariant Handed(s, w, c0, out0, b, bytesWritten, accepted) && old(w.sent) <= w.sent
        invariant w.faults <= old(w.faults)
      {
        if bytesWritten + chunkSize > |b| {
          chunkSize := |b| - bytesWritten;
        }
        var n;
        n, failed, accepted := SendChunk(s, w, b, bytesWritten, chunkSize, c0, out0, accepted);
        bytesWritten := bytesWritten + n;
        if failed {
          return;
        }
      }
      assert b[..bytesWritten] == b;
      failed := false;
    }
  }

  lemma Buffered(sent: ByteString, header: ByteString, body: ByteString)
    ensures sent + header + body == (sent + [] + []) + (header + body)
  {
  }

  lemma ChunkHanded(s: Suite, c0: Cipher, out0: ByteString, b: ByteString, from: nat, chunk: Record,
                    accepted: seq<Record>)
    requires from + |chunk| <= |b| && chunk == b[from..from + |chunk|]
    requires Concat(accepted) == b[..from]
    ensures Concat(accepted + [chunk]) == b[..from + |chunk|]
    ensures After(s, After(s, c0, 2 * |accepted|), 2) == After(s, c0, 2 * |accepted + [chunk]|)
    ensures (out0 + Stream(s, c0, accepted)) + Frame(s, After(s, c0, 2 * |accepted|), chunk)
            == out0 + Stream(s, c0, accepted + [chunk])
  {
    AnotherRecord(s, c0, accepted, chunk);
    assert b[..from] + chunk == b[..from + |chunk|];
  }

  lemma OneRecord(s: Suite, c: Cipher, p: Record)
    ensures Stream(s, c, [] + [p]) == Frame(s, c, p)
  {
    assert [] + [p] == [p];
    assert Stream(s, c, [p]) == Frame(s, c, p) + Stream(s, After(s, c, 2), []);
  }

  lemma AnotherRecord(s: Suite, c: Cipher, records: seq<Record>, p: Record)
    ensures
      var d := After(s, c, 2 * |records|);
      && Stream(s, c, records + [p]) == Stream(s, c, records) + Frame(s, d, p)
      && After(s, c, 2 * |records + [p]|) == After(s, d, 2)
      && Concat(records + [p]) == Concat(records) + p
  {
    StreamSnoc(s, c, records, p);
    AfterRecord(s, c, |records|);
    ConcatSnoc(records, p);
  }
}
