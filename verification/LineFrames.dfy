/** Text-mode websocket writes: a byte stream cut into arbitrary chunks is sent as one frame per line. */
module LineFrames {
  import opened Bytes

  const NEWLINE: Byte := 0x0A

  /** A line: its only newline is its last byte. */
  ghost predicate IsLine(frame: ByteString) {
    |frame| > 0 && frame[|frame| - 1] == NEWLINE && NEWLINE !in frame[..|frame| - 1]
  }

  ghost predicate AllLines(frames: seq<ByteString>) {
    forall i :: 0 <= i < |frames| ==> IsLine(frames[i])
  }

  function IndexOf(s: ByteString, b: Byte): (i: Option<nat>)
    ensures i.None? <==> b !in s
    ensures i.Some? ==> i.value < |s| && s[i.value] == b && b !in s[..i.value]
  {
    if s == [] then None
    else if s[0] == b then Some(0)
    else
      var rest := IndexOf(s[1..], b);
      assert s == [s[0]] + s[1..];
      if rest.None? then None
      else
        assert s[..rest.value + 1] == [s[0]] + s[1..][..rest.value];
        Some(rest.value + 1)
  }

  /** The lines of a stream. */
  function Lines(s: ByteString): seq<ByteString>
    decreases |s|
  {
    var i := IndexOf(s, NEWLINE);
    if i.None? then [] else [s[..i.value + 1]] + Lines(s[i.value + 1..])
  }

  /** There is one way to cut a stream into lines and a rest without a newline. */
  lemma {:induction false} LinesUnique(frames: seq<ByteString>, rest: ByteString)
    requires AllLines(frames) && NEWLINE !in rest
    ensures Lines(Concat(frames) + rest) == frames
    decreases |frames|
  {
    var s := Concat(frames) + rest;
    if frames == [] {
      assert s == rest;
    } else {
      var line, more := frames[0], Concat(frames[1..]) + rest;
      Reassociate(line, Concat(frames[1..]), rest);
      FirstLine(line, more);
      LinesUnique(frames[1..], rest);
      HeadTail(frames);
    }
  }

  lemma FirstLine(line: ByteString, more: ByteString)
    requires IsLine(line)
    ensures Lines(line + more) == [line] + Lines(more)
  {
    var s := line + more;
    assert s[|line| - 1] == NEWLINE;
    var i := IndexOf(s, NEWLINE).value;
    assert forall k :: 0 <= k < |line| - 1 ==> s[k] == line[..|line| - 1][k];
    assert forall k :: 0 <= k < i ==> s[..i][k] == s[k];
    assert s[..i + 1] == line && s[i + 1..] == more;
  }

  class WsConn {
    const frameLines: bool
    var pending: ByteString
    /** The frames sent and all bytes handed in. */
    ghost var frames: seq<ByteString>
    ghost var stream: ByteString

    constructor (text: bool)
      ensures Valid() && frameLines == text && pending == [] && frames == [] && stream == []
    {
      frameLines, pending, frames, stream := text, [], [], [];
    }

    /** What was sent and what is pending is what was handed in. */
    ghost predicate Valid()
      reads this
    {
      Concat(frames) + pending == stream && (frameLines ==> AllLines(frames)) && (!frameLines ==> pending == [])
    }

    /** A write during which the socket takes `accepted` frames before it fails. */
    method Write(p: ByteString, accepted: nat) returns (n: nat, ok: bool)
      requires Valid()
      modifies this
      ensures Valid() && stream == if frameLines || ok then old(stream) + p else old(stream)
      ensures n == if frameLines || ok then |p| else 0
      ensures !frameLines ==> (ok <==> accepted > 0)
      ensures ok && frameLines ==> frames == Lines(stream) && NEWLINE !in pending && |frames| >= |old(frames)|
      ensures ok && !frameLines ==> frames == old(frames) + [p]
      ensures !ok && frameLines ==> |frames| == |old(frames)| + accepted && NEWLINE in pending
      ensures !ok && !frameLines ==> frames == old(frames)
    {
      n := |p|;
      if !frameLines {
        ok := accepted > 0;
        n := if ok then |p| else 0;
        if ok {
          ConcatSnoc(frames, p);
          frames, stream := frames + [p], stream + p;
        }
        return;
      }
      pending, stream := pending + p, stream + p;
      var sent := 0;
      while true
        invariant Concat(frames) + pending == stream && AllLines(frames)
        invariant stream == old(stream) + p && |frames| == |old(frames)| + sent && sent <= accepted
        decreases |pending|
      {
        var i := IndexOf(pending, NEWLINE);
        if i.None? {
          break;
        }
        if sent == accepted {
          return n, false;
        }
        var line := pending[..i.value + 1];
        assert line[..i.value] == pending[..i.value];
        ConcatSnoc(frames, line);
        assert pending == line + pending[i.value + 1..];
        frames, pending, sent := frames + [line], pending[i.value + 1..], sent + 1;
      }
      ok := true;
      LinesUnique(frames, pending);
    }
  }

  /** The frames depend on the stream alone, not on how it was cut into writes. */
  method WriteChunks(c: WsConn, chunks: seq<ByteString>, accepted: nat) returns (ok: bool)
    requires c.Valid() && c.frameLines && c.frames == Lines(c.stream) && NEWLINE !in c.pending
    modifies c
    ensures ok ==> c.stream == old(c.stream) + Concat(chunks) && c.frames == Lines(c.stream)
    ensures ok ==> Concat(c.frames) + c.pending == c.stream && AllLines(c.frames) && NEWLINE !in c.pending
    ensures !ok ==> |c.frames| >= |old(c.frames)| + accepted && NEWLINE in c.pending
  {
    ok := true;
    ghost var stream, handed: ByteString := c.stream, [];
    for i := 0 to |chunks|
      invariant c.Valid() && c.frames == Lines(c.stream) && NEWLINE !in c.pending && ok
      invariant |c.frames| >= |old(c.frames)|
      invariant handed == Concat(chunks[..i]) && c.stream == stream + handed
    {
      ConcatOneMore(chunks, i);
      Reassociate(stream, handed, chunks[i]);
      var n;
      n, ok := c.Write(chunks[i], accepted);
      if !ok {
        return;
      }
      handed := handed + chunks[i];
    }
    assert chunks[..|chunks|] == chunks;
  }

  lemma ConcatOneMore(chunks: seq<ByteString>, i: nat)
    requires i < |chunks|
    ensures Concat(chunks[..i + 1]) == Concat(chunks[..i]) + chunks[i]
  {
    TakeOneMore(chunks, i);
    ConcatSnoc(chunks[..i], chunks[i]);
  }
}
