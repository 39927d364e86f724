/**
 One direction of an established connection: a sender and a receiver that started from the same cipher,
 interleaved in any order, with bytes reaching the wire and leaving it in pieces of any size.
 */
module Session {
  import opened Bytes
  import opened Primitives
  import opened TransportCipher
  import opened Records

  /** The sending cipher and the unflushed rest of the last record. */
  datatype Sender = Sender(cipher: Cipher, header: ByteString, body: ByteString)

  /**
   The receiving cipher, how many bytes of the wire it has taken, the size of a body it waits for and the
   decrypted bytes not yet handed out; as history, how many records it completed and all bytes handed out.
   */
  datatype Receiver = Receiver(
    cipher: Cipher, taken: nat, awaited: Option<nat>, buf: ByteString, failed: bool, got: nat, delivered: ByteString)

  /** `wire` holds every byte ever sent and `records` every record accepted for sending. */
  datatype Session = Session(send: Sender, wire: ByteString, recv: Receiver, records: seq<Record>)

  function Start(c: Cipher): Session {
    Session(Sender(c, [], []), [], Receiver(c, 0, None, [], false, 0, []), [])
  }

  datatype Event =
    | Accept(p: Record)     // WriteMessage succeeds
    | Push(n: nat)          // a flush moves n bytes to the wire, header before body
    | TakeHeader            // a blocked Read gets a whole header
    | TakeBody              // a blocked Read gets a whole body
    | Hand(n: nat)          // a Read hands out n buffered bytes

  predicate Idle(x: Sender) {
    x.header == [] && x.body == []
  }

  predicate Enabled(st: Session, ev: Event) {
    match ev
    case Accept(p) => Idle(st.send)
    case Push(n) => n <= |st.send.header| || (st.send.header == [] && n <= |st.send.body|)
    case TakeHeader =>
      !st.recv.failed && st.recv.buf == [] && st.recv.awaited.None? && st.recv.taken + ENC_HEADER_SIZE <= |st.wire|
    case TakeBody =>
      !st.recv.failed && st.recv.awaited.Some? && st.recv.taken + st.recv.awaited.value <= |st.wire|
    case Hand(n) => 0 < n <= |st.recv.buf|
  }

  function Step(s: Suite, st: Session, ev: Event): Session
    requires Enabled(st, ev)
  {
    match ev
    case Accept(p) =>
      var c := st.send.cipher;
      st.(send := Sender(Next(s, Next(s, c)), HeaderOf(s, c, p), BodyOf(s, c, p)), records := st.records + [p])
    case Push(n) =>
      var h, b := st.send.header, st.send.body;
      if n <= |h| then st.(wire := st.wire + h[..n], send := st.send.(header := h[n..]))
      else st.(wire := st.wire + b[..n], send := st.send.(body := b[n..]))
    case TakeHeader =>
      var r := st.recv;
      st.(recv := HeaderTaken(s, r, st.wire[r.taken..r.taken + ENC_HEADER_SIZE]))
    case TakeBody =>
      var r := st.recv;
      st.(recv := BodyTaken(s, r, st.wire[r.taken..r.taken + r.awaited.value]))
    case Hand(n) =>
      var r := st.recv;
      st.(recv := r.(delivered := r.delivered + r.buf[..n], buf := r.buf[n..]))
  }

  function HeaderTaken(s: Suite, r: Receiver, bytes: ByteString): Receiver {
    var size := OpenHeader(s, r.cipher, bytes);
    r.(taken := r.taken + |bytes|, cipher := Next(s, r.cipher), awaited := size, failed := size.None?)
  }

  function BodyTaken(s: Suite, r: Receiver, bytes: ByteString): Receiver {
    var plain := OpenBody(s, r.cipher, bytes);
    r.(taken := r.taken + |bytes|, cipher := Next(s, r.cipher), awaited := None, failed := plain.None?,
       got := r.got + 1, buf := if plain.Some? then r.buf + plain.value else r.buf)
  }

  /** The session reached by the events, when each could happen in its turn. */
  function Run(s: Suite, st: Session, events: seq<Event>): Option<Session>
    decreases |events|
  {
    if events == [] then Some(st)
    else if !Enabled(st, events[0]) then None
    else Run(s, Step(s, st, events[0]), events[1..])
  }

  // ---------------------------------------------------------------------------------------
  // Invariant
  // ---------------------------------------------------------------------------------------

  ghost predicate SenderInv(s: Suite, c: Cipher, x: Sender, wire: ByteString, records: seq<Record>) {
    && x.cipher == After(s, c, 2 * |records|)
    && wire + x.header + x.body == Stream(s, c, records)
  }

  ghost predicate ReceiverInv(s: Suite, c: Cipher, r: Receiver, wire: nat, records: seq<Record>) {
    && !r.failed
    && r.got <= |records|
    && r.delivered + r.buf == Concat(records[..r.got])
    && r.taken == |Stream(s, c, records[..r.got])| + (if r.awaited.Some? then ENC_HEADER_SIZE else 0)
    && r.taken <= wire
    && r.cipher == (var d := After(s, c, 2 * r.got); if r.awaited.Some? then Next(s, d) else d)
    && (r.awaited.Some? ==>
          r.got < |records| && r.buf == [] && r.awaited.value == |records[r.got]| + MAC_SIZE)
  }

  ghost predicate Inv(s: Suite, c: Cipher, st: Session) {
    && SenderInv(s, c, st.send, st.wire, st.records)
    && ReceiverInv(s, c, st.recv, |st.wire|, st.records)
  }

  lemma AcceptSender(s: Suite, c: Cipher, x: Sender, wire: ByteString, records: seq<Record>, p: Record)
    requires SenderInv(s, c, x, wire, records) && Idle(x)
    ensures
      var next := Sender(Next(s, Next(s, x.cipher)), HeaderOf(s, x.cipher, p), BodyOf(s, x.cipher, p));
      SenderInv(s, c, next, wire, records + [p])
  {
    StreamSnoc(s, c, records, p);
    AfterTwo(s, x.cipher);
    AfterRecord(s, c, |records|);
    assert wire + [] + [] == wire;
    Reassociate(wire, HeaderOf(s, x.cipher, p), BodyOf(s, x.cipher, p));
  }

  lemma Longer<T>(a: seq<T>, x: T, k: nat)
    requires k <= |a|
    ensures (a + [x])[..k] == a[..k] && (k < |a| ==> (a + [x])[k] == a[k])
  {
  }

  lemma AcceptReceiver(s: Suite, c: Cipher, r: Receiver, wire: nat, records: seq<Record>, p: Record)
    requires ReceiverInv(s, c, r, wire, records)
    ensures ReceiverInv(s, c, r, wire, records + [p])
  {
    Longer(records, p, r.got);
  }

  lemma AcceptKeeps(s: Suite, c: Cipher, st: Session, p: Record)
    requires Inv(s, c, st) && Idle(st.send)
    ensures Inv(s, c, Step(s, st, Accept(p)))
  {
    AcceptSender(s, c, st.send, st.wire, st.records, p);
    AcceptReceiver(s, c, st.recv, |st.wire|, st.records, p);
  }

  lemma Shifted(w: ByteString, pending: ByteString, after: ByteString, n: nat)
    requires n <= |pending|
    ensures (w + pending[..n]) + pending[n..] + after == w + pending + after
  {
  }

  lemma PushKeeps(s: Suite, c: Cipher, st: Session, n: nat)
    requires Inv(s, c, st) && Enabled(st, Push(n))
    ensures Inv(s, c, Step(s, st, Push(n)))
  {
    var x, st' := st.send, Step(s, st, Push(n));
    if n <= |x.header| {
      Shifted(st.wire, x.header, x.body, n);
    } else {
      Shifted(st.wire, x.body, [], n);
      assert st'.wire + [] + x.body[n..] == st'.wire + x.body[n..] + [];
      assert st.wire + [] + x.body == st.wire + x.body + [];
    }
    assert SenderInv(s, c, st'.send, st'.wire, st.records);
  }

  /** Where record `k` lies in the stream. */
  lemma StreamAt(s: Suite, c: Cipher, records: seq<Record>, k: nat)
    requires LawfulAead(s) && k < |records|
    ensures
      var d, p := After(s, c, 2 * k), records[k];
      && |Stream(s, c, records[..k + 1])| == |Stream(s, c, records[..k])| + ENC_HEADER_SIZE + |p| + MAC_SIZE
      && Stream(s, c, records[..k]) + Frame(s, d, p) <= Stream(s, c, records)
      && Concat(records[..k + 1]) == Concat(records[..k]) + p
      && After(s, c, 2 * (k + 1)) == Next(s, Next(s, d))
  {
    TakeOneMore(records, k);
    StreamSnoc(s, c, records[..k], records[k]);
    ConcatSnoc(records[..k], records[k]);
    StreamAppend(s, c, records[..k + 1], records[k + 1..]);
    var d := After(s, c, 2 * k);
    FrameSize(s, d, records[k]);
    AfterTwo(s, d);
    AfterRecord(s, c, k);
  }

  /** Bytes on the wire at a frame's place are the frame's header and body. */
  lemma FrameSlices(full: ByteString, w: ByteString, before: ByteString, header: ByteString, body: ByteString)
    requires w <= full && before + (header + body) <= full
    ensures |before| + |header| <= |w| ==> w[|before|..|before| + |header|] == header
    ensures |before| + |header| + |body| <= |w| ==>
      w[|before| + |header|..|before| + |header| + |body|] == body
  {
    var a, b, e := |before|, |before| + |header|, |before| + |header| + |body|;
    assert full[a..b] == header by { assert (before + (header + body))[a..b] == header; }
    assert full[b..e] == body by { assert (before + (header + body))[b..e] == body; }
    if b <= |w| { assert w[a..b] == full[a..b]; }
    if e <= |w| { assert w[b..e] == full[b..e]; }
  }

  /** The receiver is never ahead: with more on the wire than it took, a record is still to come. */
  lemma RecordToCome(s: Suite, c: Cipher, st: Session)
    requires Inv(s, c, st) && (st.recv.awaited.None? ==> st.recv.taken < |st.wire|)
    ensures st.recv.got < |st.records| && st.wire <= Stream(s, c, st.records)
  {
    assert st.records[..|st.records|] == st.records;
    assert |Stream(s, c, st.records)| == |st.wire| + |st.send.header| + |st.send.body|;
  }

  /** What the receiver takes off the wire is the header or the body sealed for its next record. */
  lemma OnTheWire(s: Suite, c: Cipher, st: Session, p: Record, d: Cipher)
    requires LawfulAead(s) && Inv(s, c, st) && (Enabled(st, TakeHeader) || Enabled(st, TakeBody))
    requires st.recv.got < |st.records| && p == st.records[st.recv.got] && d == After(s, c, 2 * st.recv.got)
    ensures var at := st.recv.taken;
      if st.recv.awaited.None? then st.wire[at..at + ENC_HEADER_SIZE] == HeaderOf(s, d, p)
      else st.wire[at..at + st.recv.awaited.value] == BodyOf(s, d, p)
  {
    var full, before := Stream(s, c, st.records), Stream(s, c, st.records[..st.recv.got]);
    var header, body := HeaderOf(s, d, p), BodyOf(s, d, p);
    assert st.wire <= full by { RecordToCome(s, c, st); }
    assert before + (header + body) <= full by { StreamAt(s, c, st.records, st.recv.got); }
    assert |header| == ENC_HEADER_SIZE && |body| == |p| + MAC_SIZE by { FrameSize(s, d, p); }
    FrameSlices(full, st.wire, before, header, body);
  }

  lemma TakeHeaderKeeps(s: Suite, c: Cipher, st: Session)
    requires LawfulAead(s) && Inv(s, c, st) && Enabled(st, TakeHeader)
    ensures Inv(s, c, Step(s, st, TakeHeader))
  {
    RecordToCome(s, c, st);
    var p, d := st.records[st.recv.got], After(s, c, 2 * st.recv.got);
    OnTheWire(s, c, st, p, d);
    assert Step(s, st, TakeHeader) == st.(recv := HeaderTaken(s, st.recv, HeaderOf(s, d, p)));
    HeaderAdvances(s, c, st.recv, |st.wire|, st.records);
  }

  lemma HeaderAdvances(s: Suite, c: Cipher, r: Receiver, wire: nat, records: seq<Record>)
    requires LawfulAead(s) && ReceiverInv(s, c, r, wire, records)
    requires r.awaited.None? && r.buf == [] && r.got < |records| && r.taken + ENC_HEADER_SIZE <= wire
    ensures ReceiverInv(s, c, HeaderTaken(s, r, HeaderOf(s, r.cipher, records[r.got])), wire, records)
  {
    FrameSize(s, r.cipher, records[r.got]);
    FrameOpens(s, r.cipher, records[r.got]);
  }

  lemma TakeBodyKeeps(s: Suite, c: Cipher, st: Session)
    requires LawfulAead(s) && Inv(s, c, st) && Enabled(st, TakeBody)
    ensures Inv(s, c, Step(s, st, TakeBody))
  {
    var p, d := st.records[st.recv.got], After(s, c, 2 * st.recv.got);
    OnTheWire(s, c, st, p, d);
    BodyStep(s, st, BodyOf(s, d, p));
    BodyAdvances(s, c, st.recv, |st.wire|, st.records, d);
    RecvReplaced(s, c, st, BodyTaken(s, st.recv, BodyOf(s, d, p)));
  }

  lemma BodyStep(s: Suite, st: Session, bytes: ByteString)
    requires Enabled(st, TakeBody) && st.wire[st.recv.taken..st.recv.taken + st.recv.awaited.value] == bytes
    ensures Step(s, st, TakeBody) == st.(recv := BodyTaken(s, st.recv, bytes))
  {
  }

  lemma RecvReplaced(s: Suite, c: Cipher, st: Session, r: Receiver)
    requires SenderInv(s, c, st.send, st.wire, st.records) && ReceiverInv(s, c, r, |st.wire|, st.records)
    ensures Inv(s, c, st.(recv := r))
  {
  }

  lemma BodyAdvances(s: Suite, c: Cipher, r: Receiver, wire: nat, records: seq<Record>, d: Cipher)
    requires LawfulAead(s) && ReceiverInv(s, c, r, wire, records)
    requires r.awaited.Some? && r.taken + r.awaited.value <= wire && d == After(s, c, 2 * r.got)
    ensures ReceiverInv(s, c, BodyTaken(s, r, BodyOf(s, d, records[r.got])), wire, records)
  {
    FrameSize(s, d, records[r.got]);
    FrameOpens(s, d, records[r.got]);
    StreamAt(s, c, records, r.got);
    RecordCompleted(s, c, r, wire, records, d);
  }

  lemma RecordCompleted(s: Suite, c: Cipher, r: Receiver, wire: nat, records: seq<Record>, d: Cipher)
    requires ReceiverInv(s, c, r, wire, records) && r.awaited.Some? && d == After(s, c, 2 * r.got)
    requires r.taken + r.awaited.value <= wire
    requires |BodyOf(s, d, records[r.got])| == r.awaited.value
    requires OpenBody(s, r.cipher, BodyOf(s, d, records[r.got])) == Some(records[r.got])
    requires After(s, c, 2 * (r.got + 1)) == Next(s, r.cipher)
    requires |Stream(s, c, records[..r.got + 1])| == r.taken + r.awaited.value
    requires Concat(records[..r.got + 1]) == Concat(records[..r.got]) + records[r.got]
    ensures ReceiverInv(s, c, BodyTaken(s, r, BodyOf(s, d, records[r.got])), wire, records)
  {
    NewBuffer(r.delivered, records[r.got]);
  }

  lemma NewBuffer(delivered: ByteString, p: ByteString)
    ensures (delivered + []) + p == delivered + ([] + p)
  {
  }

  lemma HandKeeps(s: Suite, c: Cipher, st: Session, n: nat)
    requires Inv(s, c, st) && Enabled(st, Hand(n))
    ensures Inv(s, c, Step(s, st, Hand(n)))
  {
    var r := st.recv;
    assert (r.delivered + r.buf[..n]) + r.buf[n..] == r.delivered + r.buf;
    assert ReceiverInv(s, c, Step(s, st, Hand(n)).recv, |st.wire|, st.records);
  }

  lemma StepKeeps(s: Suite, c: Cipher, st: Session, ev: Event)
    requires LawfulAead(s) && Inv(s, c, st) && Enabled(st, ev)
    ensures Inv(s, c, Step(s, st, ev))
  {
    match ev
    case Accept(p) => AcceptKeeps(s, c, st, p);
    case Push(n) => PushKeeps(s, c, st, n);
    case TakeHeader => TakeHeaderKeeps(s, c, st);
    case TakeBody => TakeBodyKeeps(s, c, st);
    case Hand(n) => HandKeeps(s, c, st, n);
  }

  lemma {:induction false} RunKeeps(s: Suite, c: Cipher, st: Session, events: seq<Event>)
    requires LawfulAead(s) && Inv(s, c, st) && Run(s, st, events).Some?
    ensures Inv(s, c, Run(s, st, events).value)
    decreases |events|
  {
    if events != [] {
      StepKeeps(s, c, st, events[0]);
      RunKeeps(s, c, Step(s, st, events[0]), events[1..]);
    }
  }

  lemma ReachableInv(s: Suite, c: Cipher, events: seq<Event>)
    requires LawfulAead(s) && Run(s, Start(c), events).Some?
    ensures Inv(s, c, Run(s, Start(c), events).value)
  {
    assert Inv(s, c, Start(c)) by {
      assert Stream(s, c, []) == [] && After(s, c, 0) == c;
    }
    RunKeeps(s, c, Start(c), events);
  }

  // ---------------------------------------------------------------------------------------
  // Main results
  // ---------------------------------------------------------------------------------------

  function Written(st: Session): ByteString {
    Concat(st.records)
  }

  /** Nothing pending at the sender, on the wire or in the read buffer. */
  predicate Drained(st: Session) {
    Idle(st.send) && st.recv.taken == |st.wire| && st.recv.buf == []
  }

  lemma DrainedIsComplete(s: Suite, c: Cipher, st: Session)
    requires LawfulAead(s) && Inv(s, c, st) && Drained(st)
    ensures st.recv.got == |st.records| && st.recv.delivered == Written(st)
  {
    var r := st.recv;
    assert st.wire + [] + [] == st.wire;
    if r.got < |st.records| {
      StreamAt(s, c, st.records, r.got);
      FrameSize(s, After(s, c, 2 * r.got), st.records[r.got]);
    }
    assert st.records[..|st.records|] == st.records && r.delivered + [] == r.delivered;
  }

  /**
   In every run no record fails to open, the bytes read are a prefix of the bytes written,
   and they are all of them once the connection is drained.
   */
  lemma StreamDelivered(s: Suite, c: Cipher, events: seq<Event>)
    requires LawfulAead(s) && Run(s, Start(c), events).Some?
    ensures
      var st := Run(s, Start(c), events).value;
      && !st.recv.failed
      && st.recv.delivered <= Written(st)
      && (Drained(st) ==> st.recv.delivered == Written(st))
  {
    ReachableInv(s, c, events);
    var st := Run(s, Start(c), events).value;
    var got := st.recv.got;
    assert st.records == st.records[..got] + st.records[got..];
    ConcatAppend(st.records[..got], st.records[got..]);
    if Drained(st) {
      DrainedIsComplete(s, c, st);
    }
  }

  lemma InvNotStuck(s: Suite, c: Cipher, st: Session)
    requires LawfulAead(s) && Inv(s, c, st)
    requires Idle(st.send) && st.recv.buf == [] && st.recv.delivered != Written(st)
    ensures Enabled(st, TakeHeader) || Enabled(st, TakeBody)
  {
    var r := st.recv;
    assert r.delivered + [] == r.delivered && st.records[..|st.records|] == st.records;
    StreamAt(s, c, st.records, r.got);
    FrameSize(s, After(s, c, 2 * r.got), st.records[r.got]);
    assert st.wire + [] + [] == st.wire;
  }

  /** The sender flushes what is pending, then the receiver hands out its buffer or takes the next piece of a record. */
  function Onward(st: Session): Event {
    if st.send.header != [] then Push(|st.send.header|)
    else if st.send.body != [] then Push(|st.send.body|)
    else if st.recv.buf != [] then Hand(|st.recv.buf|)
    else if st.recv.awaited.None? then TakeHeader
    else TakeBody
  }

  /** What the next step brings down: bytes to flush, records to take, a header to take, bytes to hand out. */
  lemma MovesOn(s: Suite, c: Cipher, st: Session)
    requires LawfulAead(s) && Inv(s, c, st) && st.recv.delivered != Written(st)
    ensures Enabled(st, Onward(st)) && Inv(s, c, Step(s, st, Onward(st)))
    ensures
      var x, r, st' := st.send, st.recv, Step(s, st, Onward(st));
      && st'.records == st.records
      && (if Idle(x) then st'.send == x else |st'.send.header| + |st'.send.body| < |x.header| + |x.body|)
      && (!Idle(x) ==> st'.recv == r)
      && (Idle(x) && r.buf != [] ==> st'.recv.got == r.got && st'.recv.awaited == r.awaited && st'.recv.buf == [])
      && (Idle(x) && r.buf == [] && r.awaited.None? ==> st'.recv.got == r.got && st'.recv.awaited.Some?)
      && (Idle(x) && r.buf == [] && r.awaited.Some? ==> st'.recv.got == r.got + 1 <= |st.records|)
  {
    if Idle(st.send) && st.recv.buf == [] {
      InvNotStuck(s, c, st);
    }
    StepKeeps(s, c, st, Onward(st));
  }

  lemma {:induction false} Finishes(s: Suite, c: Cipher, st: Session) returns (events: seq<Event>)
    requires LawfulAead(s) && Inv(s, c, st)
    ensures
      var end := Run(s, st, events);
      end.Some? && end.value.records == st.records && end.value.recv.delivered == Written(st)
    decreases |st.send.header| + |st.send.body|, |st.records| - st.recv.got, st.recv.awaited.None?, |st.recv.buf|
  {
    if st.recv.delivered == Written(st) {
      return [];
    }
    var ev := Onward(st);
    MovesOn(s, c, st);
    var rest := Finishes(s, c, Step(s, st, ev));
    events := [ev] + rest;
    assert events[1..] == rest;
  }

  /**
   From every state a run can be in, some further steps deliver every byte written so far; and whenever nothing is
   pending the next record is accepted, whatever it is.
   */
  lemma NeverStuck(s: Suite, c: Cipher, events: seq<Event>) returns (more: seq<Event>)
    requires LawfulAead(s) && Run(s, Start(c), events).Some?
    ensures
      var st := Run(s, Start(c), events).value;
      var end := Run(s, st, more);
      && end.Some? && end.value.records == st.records && end.value.recv.delivered == Written(st)
      && (Idle(st.send) ==> forall p :: Enabled(st, Accept(p)))
  {
    ReachableInv(s, c, events);
    more := Finishes(s, c, Run(s, Start(c), events).value);
  }
}
