/** Both directions of a connection at once: writes, retried flushes and reads by both sides in any order. */
module Duplex {
  import opened Bytes
  import opened Primitives
  import opened TransportCipher
  import opened Records
  import opened Transport
  import opened Machine
  import opened Conn
  import E = EndToEnd

  // ---------------------------------------------------------------------------------------
  // One direction, as values
  // ---------------------------------------------------------------------------------------

  /** The records not yet taken off the wire, what each write asked for and handed over, and all bytes read. */
  datatype Way = Way(rest: seq<Record>, asked: seq<ByteString>, handed: seq<ByteString>, out: ByteString)

  /** Each write handed over a prefix of what it was asked to. */
  ghost predicate Prefixes(handed: seq<ByteString>, asked: seq<ByteString>) {
    |handed| == |asked| && forall i :: 0 <= i < |handed| ==> handed[i] <= asked[i]
  }

  /**
   On the wire and pending is the stream of the remaining records, the sender is as many operations ahead of the
   receiver as they need, and read, buffered and remaining bytes are what was handed over.
   */
  ghost predicate Flows(s: Suite, sender: Cipher, pending: ByteString, input: ByteString, receiver: Cipher,
                        buf: ByteString, d: Way) {
    && input + pending == Stream(s, receiver, d.rest)
    && sender == After(s, receiver, 2 * |d.rest|)
    && d.out + buf + Concat(d.rest) == Concat(d.handed)
    && Prefixes(d.handed, d.asked)
  }

  lemma WriteFlows(s: Suite, sender: Cipher, pending: ByteString, input: ByteString, receiver: Cipher,
                   buf: ByteString, d: Way,
                   b: ByteString, more: seq<Record>, pending': ByteString, input': ByteString) returns (d': Way)
    requires Flows(s, sender, pending, input, receiver, buf, d) && Concat(more) <= b
    requires input' + pending' == (input + pending) + Stream(s, sender, more)
    ensures d' == Way(d.rest + more, d.asked + [b], d.handed + [Concat(more)], d.out)
    ensures Flows(s, After(s, sender, 2 * |more|), pending', input', receiver, buf, d')
  {
    d' := Way(d.rest + more, d.asked + [b], d.handed + [Concat(more)], d.out);
    StreamAppend(s, receiver, d.rest, more);
    AfterAdds(s, receiver, 2 * |d.rest|, 2 * |more|, 2 * |d'.rest|);
    ConcatAppend(d.rest, more);
    ConcatSnoc(d.handed, Concat(more));
    Reassociate(d.out + buf, Concat(d.rest), Concat(more));
  }

  lemma FlushFlows(s: Suite, sender: Cipher, pending: ByteString, input: ByteString, receiver: Cipher,
                   buf: ByteString, d: Way, pending': ByteString, input': ByteString)
    requires Flows(s, sender, pending, input, receiver, buf, d) && input' + pending' == input + pending
    ensures Flows(s, sender, pending', input', receiver, buf, d)
  {
  }

  /** Fetching the next record with data into the empty buffer and handing out its front. */
  lemma FetchFlows(s: Suite, sender: Cipher, pending: ByteString, input: ByteString, receiver: Cipher, d: Way,
                   data: ByteString, buf': ByteString) returns (d': Way)
    requires LawfulAead(s) && Flows(s, sender, pending, input, receiver, [], d) && Fetch(s, receiver, input).Fetched?
    requires data + buf' == Fetch(s, receiver, input).plain
    ensures d'.asked == d.asked && d'.handed == d.handed && d'.out == d.out + data
    ensures Flows(s, sender, pending, Fetch(s, receiver, input).rest, Fetch(s, receiver, input).cipher, buf', d')
  {
    var f := Fetch(s, receiver, input);
    assert input <= input + pending;
    var k := E.FetchTakes(s, receiver, d.rest, input);
    var taken, left := d.rest[..k], d.rest[k..];
    assert d.rest == taken + left;
    d' := Way(left, d.asked, d.handed, d.out + data);
    StreamAppend(s, receiver, taken, left);
    E.Cancel(Stream(s, receiver, taken), f.rest, pending, Stream(s, f.cipher, left));
    AfterAdds(s, receiver, 2 * k, 2 * |left|, 2 * |d.rest|);
    ConcatAppend(taken, left);
    Handed(d.out, data, buf', Concat(left));
  }

  lemma Handed(out: ByteString, data: ByteString, buf: ByteString, left: ByteString)
    ensures out + [] + ((data + buf) + left) == (out + data) + buf + left
  {
  }

  // ---------------------------------------------------------------------------------------
  // One direction, as objects
  // ---------------------------------------------------------------------------------------

  datatype Action = Write(bytes: ByteString) | Flush | Read(size: nat)

  /** Connection `a` sends to `b` over a wire that ends in `r`. */
  ghost predicate Linked(s: Suite, a: Conn, b: Conn, r: Reader, d: Way)
    reads a.noise, a.noise.sendCipher, b, b.noise.recvCipher, r
  {
    Flows(s, a.noise.sendCipher.View(), a.noise.nextHeaderSend + a.noise.nextBodySend, r.input,
          b.noise.recvCipher.View(), b.readBuf, d)
  }

  /** What was sent since goes onto the wire. */
  method Deliver(w: Writer, before: nat, r: Reader)
    requires before <= |w.sent|
    modifies r
    ensures r.input == old(r.input) + w.sent[before..]
  {
    r.input := r.input + w.sent[before..];
  }

  lemma Delivered(sent: ByteString, sent': ByteString, input: ByteString, pending: ByteString, pending': ByteString,
                  more: ByteString)
    requires sent <= sent' && sent' + pending' == (sent + pending) + more
    ensures (input + sent'[|sent|..]) + pending' == (input + pending) + more
  {
    assert sent' == sent + sent'[|sent|..];
    E.Cancel(sent, sent'[|sent|..], pending', pending + more);
    assert (sent + pending) + more == sent + (pending + more);
    Reassociate(input, sent'[|sent|..], pending');
    Reassociate(input, pending, more);
  }

  lemma Flushed(sent: ByteString, sent': ByteString, input: ByteString, pending: ByteString, pending': ByteString)
    requires sent <= sent' && sent' + pending' == sent + pending
    ensures (input + sent'[|sent|..]) + pending' == input + pending
  {
    assert (sent + pending) + [] == sent + pending && (input + pending) + [] == input + pending;
    Delivered(sent, sent', input, pending, pending', []);
  }

  method WriteStep(s: Suite, a: Conn, w: Writer, b: Conn, r: Reader, bytes: ByteString, ghost d: Way)
      returns (failed: bool, ghost d': Way)
    requires LawfulAead(s) && Linked(s, a, b, r, d) && a.noise.sendCipher != b.noise.recvCipher
    modifies a.noise`nextHeaderSend, a.noise`nextBodySend, a.noise.sendCipher, w, r
    ensures Linked(s, a, b, r, d')
    ensures d'.out == d.out && d'.asked == d.asked + [bytes]
    ensures |d'.handed| == |d.handed| + 1 && d.handed <= d'.handed && (!failed ==> d'.handed == d.handed + [bytes])
    ensures w.faults <= old(w.faults) && (!failed ==> a.Idle())
    ensures old(a.Idle()) && failed ==> w.faults < old(w.faults)
  {
    ghost var sent, input, pending := w.sent, r.input, a.noise.nextHeaderSend + a.noise.nextBodySend;
    ghost var sender := a.noise.sendCipher.View();
    Reassociate(w.sent, a.noise.nextHeaderSend, a.noise.nextBodySend);
    var before := |w.sent|;
    var n;
    ghost var more;
    n, failed, more := a.Write(s, w, bytes);
    Reassociate(w.sent, a.noise.nextHeaderSend, a.noise.nextBodySend);
    ghost var pending' := a.noise.nextHeaderSend + a.noise.nextBodySend;
    Delivered(sent, w.sent, input, pending, pending', Stream(s, sender, more));
    Deliver(w, before, r);
    d' := WriteFlows(s, sender, pending, input, b.noise.recvCipher.View(), b.readBuf, d,
                     bytes, more, pending', r.input);
  }

  /** Flushing moves pending bytes to the reader's end of the wire. */
  method FlushAcross(m: Machine, w: Writer, r: Reader) returns (failed: bool)
    modifies m`nextHeaderSend, m`nextBodySend, w, r
    ensures r.input + (m.nextHeaderSend + m.nextBodySend) == old(r.input + (m.nextHeaderSend + m.nextBodySend))
    ensures failed ==> w.faults < old(w.faults) && !old(m.nextHeaderSend == [] && m.nextBodySend == [])
    ensures !failed ==> w.faults == old(w.faults) && m.nextHeaderSend == [] && m.nextBodySend == []
  {
    ghost var sent, input, pending := w.sent, r.input, m.nextHeaderSend + m.nextBodySend;
    Reassociate(w.sent, m.nextHeaderSend, m.nextBodySend);
    var before := |w.sent|;
    var n;
    n, failed := m.Flush(w);
    Reassociate(w.sent, m.nextHeaderSend, m.nextBodySend);
    Flushed(sent, w.sent, input, pending, m.nextHeaderSend + m.nextBodySend);
    Deliver(w, before, r);
  }

  method FlushStep(s: Suite, a: Conn, w: Writer, b: Conn, r: Reader, ghost d: Way) returns (failed: bool)
    requires LawfulAead(s) && Linked(s, a, b, r, d)
    modifies a.noise`nextHeaderSend, a.noise`nextBodySend, w, r
    ensures Linked(s, a, b, r, d)
    ensures if failed then w.faults < old(w.faults) && !old(a.Idle()) else w.faults == old(w.faults) && a.Idle()
  {
    ghost var input, pending := r.input, a.noise.nextHeaderSend + a.noise.nextBodySend;
    failed := FlushAcross(a.noise, w, r);
    FlushFlows(s, a.noise.sendCipher.View(), pending, input, b.noise.recvCipher.View(), b.readBuf, d,
               a.noise.nextHeaderSend + a.noise.nextBodySend, r.input);
  }

  /** A read with nothing buffered waits until a record with data is complete; until then nothing happens. */
  method ReadStep(s: Suite, a: Conn, b: Conn, r: Reader, size: nat, ghost d: Way)
      returns (got: ByteString, ghost d': Way)
    requires LawfulAead(s) && Linked(s, a, b, r, d) && a.noise.sendCipher != b.noise.recvCipher
    modifies b, r, b.noise.recvCipher
    ensures Linked(s, a, b, r, d')
    ensures d'.out == d.out + got && d'.asked == d.asked && d'.handed == d.handed
    ensures size > 0 && a.Idle() && got == [] ==> d.out == Concat(d.handed)
  {
    if b.readBuf == [] && Fetch(s, b.noise.recvCipher.View(), r.input).Ended? {
      assert d.out + [] == d.out;
      AllRead(s, a.noise.sendCipher.View(), a.noise.nextHeaderSend + a.noise.nextBodySend, r.input,
              b.noise.recvCipher.View(), d);
      return [], d;
    }
    ghost var input, receiver, buf := r.input, b.noise.recvCipher.View(), b.readBuf;
    var failed;
    got, failed := b.Read(s, r, size);
    if buf == [] {
      ghost var pending := a.noise.nextHeaderSend + a.noise.nextBodySend;
      d' := FetchFlows(s, a.noise.sendCipher.View(), pending, input, receiver, d, got, b.readBuf);
    } else {
      d' := d.(out := d.out + got);
      Reassociate(d.out, got, b.readBuf);
    }
  }

  /** With nothing pending and nothing complete to fetch, everything handed over was read. */
  lemma AllRead(s: Suite, sender: Cipher, pending: ByteString, input: ByteString, receiver: Cipher, d: Way)
    requires LawfulAead(s) && Flows(s, sender, pending, input, receiver, [], d) && Fetch(s, receiver, input).Ended?
    ensures pending == [] ==> d.out == Concat(d.handed)
  {
    if pending == [] {
      assert input + [] == input;
      E.EndedIsEmpty(s, receiver, d.rest);
      assert d.out + [] + [] == d.out;
    }
  }

  function Written(act: Action): seq<ByteString> {
    if act.Write? then [act.bytes] else []
  }

  /**
   What an action does to the account. Its bytes read join what was read, its bytes written what was asked, and what was
   handed over unless it fails. It fails only if the transport does, or if it is a write with something pending. After a
   write or flush that does not fail nothing is pending, and then a read that gets nothing has read everything.
   */
  ghost predicate Acted(act: Action, d: Way, d': Way, got: ByteString, failed: bool, idle: bool, idle': bool,
                        faults: nat, faults': nat) {
    && d'.out == d.out + got && d'.asked == d.asked + Written(act)
    && d.handed <= d'.handed && (!failed ==> d'.handed == d.handed + Written(act))
    && faults' <= faults && (failed ==> faults' < faults || (act.Write? && !idle))
    && (act.Flush? && failed ==> !idle)
    && (if act.Read? then !failed && idle' == idle else failed || idle')
    && (act.Read? && act.size > 0 && idle && got == [] ==> d.out == Concat(d.handed))
  }

  /** One action of one direction; the other direction's objects are not touched. */
  method Act(s: Suite, a: Conn, w: Writer, b: Conn, r: Reader, act: Action, ghost d: Way)
      returns (got: ByteString, failed: bool, ghost d': Way)
    requires LawfulAead(s) && Linked(s, a, b, r, d) && a.noise.sendCipher != b.noise.recvCipher
    modifies a.noise`nextHeaderSend, a.noise`nextBodySend, a.noise.sendCipher, w, b, r, b.noise.recvCipher
    ensures Linked(s, a, b, r, d')
    ensures Acted(act, d, d', got, failed, old(a.Idle()), a.Idle(), old(w.faults), w.faults)
  {
    got, failed := [], false;
    assert d.out + [] == d.out && d.asked + [] == d.asked && d.handed + [] == d.handed;
    match act {
      case Write(bytes) => failed, d' := WriteStep(s, a, w, b, r, bytes, d);
      case Flush =>
        failed := FlushStep(s, a, w, b, r, d);
        d' := d;
      case Read(size) => got, d' := ReadStep(s, a, b, r, size, d);
    }
  }

  // ---------------------------------------------------------------------------------------
  // Both directions
  // ---------------------------------------------------------------------------------------

  /** What one side is asked to write in a script. */
  function Writes(script: seq<(bool, Action)>, side: bool): seq<ByteString> {
    if script == [] then []
    else
      var rest, last := Writes(script[..|script| - 1], side), script[|script| - 1];
      if last.0 == side && last.1.Write? then rest + [last.1.bytes] else rest
  }

  lemma WritesSnoc(script: seq<(bool, Action)>, i: nat, side: bool)
    requires i < |script|
    ensures Writes(script[..i + 1], side) ==
      Writes(script[..i], side) + if script[i].0 == side && script[i].1.Write? then [script[i].1.bytes] else []
  {
    assert script[..i + 1][..i] == script[..i];
  }

  /** How often one side flushes after its last write. */
  function Flushes(script: seq<(bool, Action)>, side: bool): nat {
    if script == [] then 0
    else
      var rest, last := Flushes(script[..|script| - 1], side), script[|script| - 1];
      if last.0 != side || last.1.Read? then rest else if last.1.Write? then 0 else rest + 1
  }

  lemma FlushesSnoc(script: seq<(bool, Action)>, i: nat, side: bool)
    requires i < |script|
    ensures Flushes(script[..i + 1], side) ==
      var rest, act := Flushes(script[..i], side), script[i].1;
      if script[i].0 != side || act.Read? then rest else if act.Write? then 0 else rest + 1
  {
    assert script[..i + 1][..i] == script[..i];
  }

  /** Something is pending only as long as the transport used up a fault for every flush, and it failed at all. */
  predicate Settles(idle: bool, flushes: nat, faults: nat, faults0: nat, failed: bool) {
    && faults <= faults0 && (failed ==> faults < faults0) && (!failed ==> idle)
    && (idle || flushes + faults <= faults0)
  }

  /**
   What a side has read is a prefix of what the other side's writes handed over; each of them handed over a prefix
   of what it was asked, all of it if none failed; and once nothing is pending, on the wire or buffered, everything
   was read.
   */
  ghost predicate Conveyed(asked: seq<ByteString>, handed: seq<ByteString>, out: ByteString, anyFailed: bool,
                           drained: bool) {
    && Prefixes(handed, asked) && (!anyFailed ==> handed == asked)
    && out <= Concat(handed)
    && (drained ==> out == Concat(handed))
  }

  lemma StreamIsEmpty(s: Suite, c: Cipher, rest: seq<Record>)
    requires LawfulAead(s)
    ensures Stream(s, c, rest) == [] <==> rest == []
  {
    if rest != [] {
      FrameSize(s, c, rest[0]);
    }
  }

  lemma LinkedConveys(s: Suite, sender: Cipher, pending: ByteString, input: ByteString, receiver: Cipher,
                      buf: ByteString, d: Way)
    requires LawfulAead(s) && Flows(s, sender, pending, input, receiver, buf, d)
    ensures d.out <= Concat(d.handed)
    ensures pending == [] && input == [] && buf == [] ==> d.out == Concat(d.handed)
  {
    Reassociate(d.out, buf, Concat(d.rest));
    StreamIsEmpty(s, receiver, d.rest);
    assert d.out + [] + [] == d.out;
  }

  /** The objects of the two directions are different ones. */
  ghost predicate Apart(a: Conn, b: Conn, w1: Writer, w2: Writer, r1: Reader, r2: Reader) {
    && a != b && a.noise != b.noise && w1 != w2 && r1 != r2
    && a.noise.sendCipher != b.noise.recvCipher && b.noise.sendCipher != a.noise.recvCipher
    && a.noise.sendCipher != b.noise.sendCipher && a.noise.recvCipher != b.noise.recvCipher
    && a.noise.sendCipher != a.noise.recvCipher && b.noise.sendCipher != b.noise.recvCipher
  }

  /** An action of one direction leaves the other as it is. */
  method ActBeside(s: Suite, a: Conn, w1: Writer, b: Conn, r1: Reader, act: Action, ghost d1: Way,
                   w2: Writer, r2: Reader, ghost d2: Way) returns (got: ByteString, failed: bool, ghost d1': Way)
    requires LawfulAead(s) && Apart(a, b, w1, w2, r1, r2) && Linked(s, a, b, r1, d1) && Linked(s, b, a, r2, d2)
    modifies a.noise`nextHeaderSend, a.noise`nextBodySend, a.noise.sendCipher, w1, b, r1, b.noise.recvCipher
    ensures Linked(s, a, b, r1, d1') && Linked(s, b, a, r2, d2)
    ensures Acted(act, d1, d1', got, failed, old(a.Idle()), a.Idle(), old(w1.faults), w1.faults)
    ensures b.Idle() == old(b.Idle()) && w2.faults == old(w2.faults)
  {
    got, failed, d1' := Act(s, a, w1, b, r1, act, d1);
  }

  /** One step of the account above, from what an action promises. */
  lemma SettlesOn(idle: bool, flushes: nat, faults: nat, faults0: nat, failed: bool,
                  act: Action, idle': bool, faults': nat, now: bool)
    requires Settles(idle, flushes, faults, faults0, failed)
    requires faults' <= faults && (now ==> !act.Read? && (faults' < faults || (act.Write? && !idle)))
    requires (!now && !act.Read? ==> idle') && (act.Flush? && now ==> faults' < faults && !idle)
    requires act.Read? ==> idle' == idle
    ensures
      var flushes' := if act.Read? then flushes else if act.Write? then 0 else flushes + 1;
      Settles(idle', flushes', faults', faults0, failed || now)
  {
  }

  /** The account of one direction after the first `n` actions of a script. */
  ghost predicate Tally(d: Way, script: seq<(bool, Action)>, n: nat, side: bool, out: ByteString, failed: bool,
                        idle: bool, faults: nat, faults0: nat)
    requires n <= |script|
  {
    && d.out == out && d.asked == Writes(script[..n], side) && (!failed ==> d.handed == d.asked)
    && Settles(idle, Flushes(script[..n], side), faults, faults0, failed)
  }

  /** An action of one side leaves the other side's account as it is. */
  lemma TallyOther(d: Way, script: seq<(bool, Action)>, n: nat, side: bool, out: ByteString, failed: bool,
                   idle: bool, faults: nat, faults0: nat)
    requires n < |script| && script[n].0 != side && Tally(d, script, n, side, out, failed, idle, faults, faults0)
    ensures Tally(d, script, n + 1, side, out, failed, idle, faults, faults0)
  {
    WritesSnoc(script, n, side);
    FlushesSnoc(script, n, side);
    assert Writes(script[..n], side) + [] == Writes(script[..n], side);
  }

  lemma TallyOwn(d: Way, script: seq<(bool, Action)>, n: nat, side: bool, out: ByteString, failed: bool,
                 idle: bool, faults: nat, faults0: nat, d': Way, got: ByteString, now: bool, idle': bool, faults': nat)
    requires n < |script| && script[n].0 == side && Tally(d, script, n, side, out, failed, idle, faults, faults0)
    requires Acted(script[n].1, d, d', got, now, idle, idle', faults, faults')
    ensures Tally(d', script, n + 1, side, out + got, failed || now, idle', faults', faults0)
  {
    WritesSnoc(script, n, side);
    FlushesSnoc(script, n, side);
    SettlesOn(idle, Flushes(script[..n], side), faults, faults0, failed, script[n].1, idle', faults', now);
  }

  /**
   Both sides write, retry flushes and read in any order, over transports that may fail at any point: in both directions
   the bytes read are always a prefix of the bytes handed over, and all of them once drained. Nothing fails that the
   transport did not fail, and more flushes after the last write than it can fail leave nothing pending.
   */
  method Talk(s: Suite, a: Conn, b: Conn, w1: Writer, w2: Writer, r1: Reader, r2: Reader, script: seq<(bool, Action)>)
      returns (out1: ByteString, out2: ByteString, failed1: bool, failed2: bool,
               ghost handed1: seq<ByteString>, ghost handed2: seq<ByteString>)
    requires LawfulAead(s) && Apart(a, b, w1, w2, r1, r2)
    requires Linked(s, a, b, r1, NOTHING) && Linked(s, b, a, r2, NOTHING) && a.Idle() && b.Idle()
    modifies a.noise`nextHeaderSend, a.noise`nextBodySend, b.noise`nextHeaderSend, b.noise`nextBodySend
    modifies a.noise.sendCipher, a.noise.recvCipher, b.noise.sendCipher, b.noise.recvCipher, a, b, w1, w2, r1, r2
    ensures Conveyed(Writes(script, true), handed1, out1, failed1, Drained(a, b, r1))
    ensures Conveyed(Writes(script, false), handed2, out2, failed2, Drained(b, a, r2))
    ensures Settles(a.Idle(), Flushes(script, true), w1.faults, old(w1.faults), failed1)
    ensures Settles(b.Idle(), Flushes(script, false), w2.faults, old(w2.faults), failed2)
  {
    ghost var d1, d2, f1, f2 := NOTHING, NOTHING, w1.faults, w2.faults;
    out1, out2, failed1, failed2 := [], [], false, false;
    for n := 0 to |script|
      invariant Linked(s, a, b, r1, d1) && Linked(s, b, a, r2, d2)
      invariant Tally(d1, script, n, true, out1, failed1, a.Idle(), w1.faults, f1)
      invariant Tally(d2, script, n, false, out2, failed2, b.Idle(), w2.faults, f2)
    {
      var got, now;
      ghost var d;
      if script[n].0 {
        ghost var idle, faults := a.Idle(), w1.faults;
        got, now, d := ActBeside(s, a, w1, b, r1, script[n].1, d1, w2, r2, d2);
        TallyOwn(d1, script, n, true, out1, failed1, idle, faults, f1, d, got, now, a.Idle(), w1.faults);
        TallyOther(d2, script, n, false, out2, failed2, b.Idle(), w2.faults, f2);
        out1, failed1, d1 := out1 + got, failed1 || now, d;
      } else {
        ghost var idle, faults := b.Idle(), w2.faults;
        got, now, d := ActBeside(s, b, w2, a, r2, script[n].1, d2, w1, r1, d1);
        TallyOwn(d2, script, n, false, out2, failed2, idle, faults, f2, d, got, now, b.Idle(), w2.faults);
        TallyOther(d1, script, n, true, out1, failed1, a.Idle(), w1.faults, f1);
        out2, failed2, d2 := out2 + got, failed2 || now, d;
      }
    }
    assert script[..|script|] == script;
    handed1, handed2 := d1.handed, d2.handed;
    LinkedConveys(s, a.noise.sendCipher.View(), a.noise.nextHeaderSend + a.noise.nextBodySend, r1.input,
                  b.noise.recvCipher.View(), b.readBuf, d1);
    LinkedConveys(s, b.noise.sendCipher.View(), b.noise.nextHeaderSend + b.noise.nextBodySend, r2.input,
                  a.noise.recvCipher.View(), a.readBuf, d2);
  }

  /** What `Settles` gives a caller: no failure without a fault, and enough flushes leave nothing pending. */
  lemma SettledInTheEnd(idle: bool, flushes: nat, faults: nat, faults0: nat, failed: bool)
    requires Settles(idle, flushes, faults, faults0, failed)
    ensures faults0 == 0 ==> !failed && idle
    ensures flushes > faults0 ==> idle
  {
  }

  const NOTHING: Way := Way([], [], [], [])

  /** Nothing pending at the sender, on the wire or buffered at the receiver. */
  predicate Drained(a: Conn, b: Conn, r: Reader)
    reads a.noise, b, r
  {
    a.noise.nextHeaderSend + a.noise.nextBodySend == [] && r.input == [] && b.readBuf == []
  }

  /** The same from the handshake on. */
  method Converse(s: Suite, name: ByteString, prologue: ByteString, initiatorKey: PrivKey, responderKey: PrivKey,
                  e1: PrivKey, e2: PrivKey, script: seq<(bool, Action)>, faults1: nat, faults2: nat)
      returns (toResponder: ByteString, toInitiator: ByteString, failed1: bool, failed2: bool, a: Conn, b: Conn,
               r1: Reader, r2: Reader)
    requires Lawful(s)
    ensures exists handed :: Conveyed(Writes(script, true), handed, toResponder, failed1, Drained(a, b, r1))
    ensures exists handed :: Conveyed(Writes(script, false), handed, toInitiator, failed2, Drained(b, a, r2))
    ensures !failed1 ==> toResponder <= Concat(Writes(script, true))
    ensures !failed1 && Drained(a, b, r1) ==> toResponder == Concat(Writes(script, true))
    ensures !failed2 ==> toInitiator <= Concat(Writes(script, false))
    ensures !failed2 && Drained(b, a, r2) ==> toInitiator == Concat(Writes(script, false))
    ensures (failed1 ==> faults1 > 0) && (failed2 ==> faults2 > 0)
    ensures faults1 == 0 || Flushes(script, true) > faults1 ==> a.Idle()
    ensures faults2 == 0 || Flushes(script, false) > faults2 ==> b.Idle()
  {
    ghost var handed1, handed2;
    var w1, w2;
    a, b, w1, w2, r1, r2 := Connect(s, name, prologue, initiatorKey, responderKey, e1, e2, faults1, faults2);
    toResponder, toInitiator, failed1, failed2, handed1, handed2 := Talk(s, a, b, w1, w2, r1, r2, script);
    SettledInTheEnd(a.Idle(), Flushes(script, true), w1.faults, faults1, failed1);
    SettledInTheEnd(b.Idle(), Flushes(script, false), w2.faults, faults2, failed2);
  }

  method Connect(s: Suite, name: ByteString, prologue: ByteString, initiatorKey: PrivKey, responderKey: PrivKey,
                 e1: PrivKey, e2: PrivKey, faults1: nat, faults2: nat)
      returns (a: Conn, b: Conn, w1: Writer, w2: Writer, r1: Reader, r2: Reader)
    requires Lawful(s)
    ensures fresh({a, b, a.noise, b.noise, w1, w2, r1, r2})
    ensures fresh({a.noise.sendCipher, a.noise.recvCipher, b.noise.sendCipher, b.noise.recvCipher})
    ensures Apart(a, b, w1, w2, r1, r2)
    ensures Linked(s, a, b, r1, NOTHING) && Linked(s, b, a, r2, NOTHING) && a.Idle() && b.Idle()
    ensures w1.faults == faults1 && w2.faults == faults2
  {
    var i, r, ok, packets := Handshake(s, name, prologue, initiatorKey, responderKey, e1, e2);
    a := new Conn(i);
    b := new Conn(r);
    w1 := new Writer(faults1);
    w2 := new Writer(faults2);
    r1 := new Reader([]);
    r2 := new Reader([]);
  }
}
