/** Windowed and seekable reads of a stored object. */
module ReadWindow {
  import opened Bytes

  const MAX_INT64: int := 0x7FFF_FFFF_FFFF_FFFF

  /** Go's 64-bit signed arithmetic: the value modulo 2^64, between -2^63 and 2^63 - 1. */
  function Wrap64(x: int): (r: int)
    ensures IsInt64(r)
    ensures IsInt64(x) ==> r == x
  {
    (x + MAX_INT64 + 1) % (2 * (MAX_INT64 + 1)) - (MAX_INT64 + 1)
  }

  predicate IsInt64(x: int) {
    -MAX_INT64 - 1 <= x <= MAX_INT64
  }

  datatype Error = OutOfBounds | NotFound

  datatype Result<T> = Ok(value: T) | Err(error: Error)

  function Min(a: int, b: int): int {
    if a < b then a else b
  }

  /** The byte count of the window at an offset. */
  function ResolveReadLimit(size: nat, offset: int, limit: int): (r: Result<int>)
    requires IsInt64(offset) && IsInt64(limit)
    ensures r.Ok? <==> size <= MAX_INT64 && 0 <= offset <= size && 0 <= limit
    ensures r.Err? ==> r.error == OutOfBounds
    ensures r.Ok? ==>
      && 0 <= r.value && offset + r.value <= size
      && (limit > 0 ==> r.value <= limit)
      && (r.value == limit > 0 || offset + r.value == size)
  {
    if size > MAX_INT64 || offset < 0 || limit < 0 then Err(OutOfBounds)
    else
      var remaining := Wrap64(size - offset);
      if remaining < 0 then Err(OutOfBounds)
      else if limit == 0 then Ok(remaining)
      else Ok(Min(limit, remaining))
  }

  /** An open file and its position. */
  class File {
    const data: ByteString
    var pos: nat

    constructor (data: ByteString, pos: nat)
      requires pos <= |data|
      ensures this.data == data && this.pos == pos
    {
      this.data, this.pos := data, pos;
    }

    /** A read into a buffer of `len` bytes; the system may return fewer than there are. */
    method Read(len: nat, offered: nat) returns (bytes: ByteString, eof: bool)
      requires pos <= |data|
      modifies this
      ensures |bytes| == Min(Min(len, offered), |data| - old(pos))
      ensures pos == old(pos) + |bytes| && bytes == data[old(pos)..pos]
      ensures eof <==> len > 0 && old(pos) == |data|
    {
      var n := Min(Min(len, offered), |data| - pos);
      eof := len > 0 && pos == |data|;
      bytes := data[pos..pos + n];
      pos := pos + n;
    }
  }

  /** A file with the number of bytes still allowed; below zero there is no limit. */
  class Reader {
    const file: File
    var limit: int

    constructor (file: File, limit: int)
      ensures this.file == file && this.limit == limit
    {
      this.file, this.limit := file, limit;
    }

    ghost predicate Valid()
      reads this, file
    {
      file.pos <= |file.data| && file.pos + limit <= |file.data|
    }

    /** What is left of the window. */
    ghost function Left(): ByteString
      requires Valid()
      reads this, file
    {
      if limit < 0 then file.data[file.pos..] else file.data[file.pos..file.pos + limit]
    }

    method Read(len: nat, offered: nat) returns (bytes: ByteString, eof: bool)
      requires Valid()
      modifies this, file
      ensures Valid() && old(Left()) == bytes + Left()
      ensures |bytes| == Min(Min(len, offered), |old(Left())|)
      ensures len > 0 ==> (eof <==> old(Left()) == [])
      ensures file.pos == old(file.pos) + |bytes|
      ensures limit == if old(limit) < 0 then old(limit) else old(limit) - |bytes|
    {
      if limit < 0 {
        bytes, eof := file.Read(len, offered);
        return;
      }
      if limit == 0 {
        return [], true;
      }
      var l := Min(len, limit);
      bytes, eof := file.Read(l, offered);
      limit := limit - |bytes|;
    }
  }

  /** Reads of any sizes: what came out is the front of the window, the rest is still to come. */
  method ReadMany(r: Reader, lens: seq<nat>, offers: seq<nat>) returns (all: ByteString)
    requires r.Valid() && |lens| == |offers|
    modifies r, r.file
    ensures r.Valid() && old(r.Left()) == all + r.Left()
    ensures AllPositive(lens) && AllPositive(offers) ==> |all| >= Min(|lens|, |old(r.Left())|)
  {
    all := [];
    ghost var left := r.Left();
    for i := 0 to |lens|
      invariant r.Valid() && left == all + r.Left()
      invariant AllPositive(lens) && AllPositive(offers) ==> |all| >= Min(i, |left|)
    {
      ghost var before, rest := all, r.Left();
      var bytes, eof := r.Read(lens[i], offers[i]);
      all := all + bytes;
      Reassociate(before, bytes, r.Left());
      assert AllPositive(lens) && AllPositive(offers) ==> lens[i] > 0 && offers[i] > 0;
    }
  }

  /** A repository that serves one object. */
  class Repository {
    const data: ByteString

    constructor (data: ByteString)
      requires |data| <= MAX_INT64
      ensures this.data == data
    {
      this.data := data;
    }

    /** Opens the object at an offset; `fault` stands for every other way to fail. */
    method Read(offset: int, limit: int, fault: bool) returns (r: Result<Reader>)
      requires |data| <= MAX_INT64 && IsInt64(offset) && IsInt64(limit)
      ensures r.Ok? <==> !fault && ResolveReadLimit(|data|, offset, limit).Ok?
      ensures r.Err? ==> r.error == if fault then NotFound else OutOfBounds
      ensures r.Ok? ==>
        var n := ResolveReadLimit(|data|, offset, limit).value;
        && fresh(r.value) && fresh(r.value.file) && r.value.Valid() && r.value.file.data == data
        && r.value.limit == n && r.value.file.pos == offset && r.value.Left() == data[offset..offset + n]
    {
      if fault {
        return Err(NotFound);
      }
      var n := ResolveReadLimit(|data|, offset, limit);
      if n.Err? {
        return Err(n.error);
      }
      var f := new File(data, offset);
      var reader := new Reader(f, n.value);
      r := Ok(reader);
    }
  }

  /** Opening a window and reading it to the end yields exactly its bytes, whatever the sizes of the reads. */
  method ReadWindow(repo: Repository, offset: int, limit: int, lens: seq<nat>, offers: seq<nat>)
    returns (all: Result<ByteString>)
    requires |repo.data| <= MAX_INT64 && IsInt64(offset) && IsInt64(limit) && |lens| == |offers|
    ensures all.Ok? <==> 0 <= offset <= |repo.data| && 0 <= limit
    ensures all.Ok? ==>
      var end := if limit == 0 then |repo.data| else Min(offset + limit, |repo.data|);
      && all.value <= repo.data[offset..end]
      && (AllPositive(lens) && AllPositive(offers) && |lens| >= end - offset ==> all.value == repo.data[offset..end])
  {
    var r := repo.Read(offset, limit, false);
    if r.Err? {
      return Err(r.error);
    }
    ghost var window := r.value.Left();
    var bytes := ReadMany(r.value, lens, offers);
    all := Ok(bytes);
    assert bytes <= window;
    assert |bytes| >= |window| ==> bytes == window;
  }

  // ---------------------------------------------------------------------------------------
  // Seeking
  // ---------------------------------------------------------------------------------------

  const SEEK_START: int := 0
  const SEEK_CURRENT: int := 1
  const SEEK_END: int := 2

  /** The position a seek asks the repository for; an unknown `whence` asks for the start. */
  function Resolved(pos: int, known: nat, offset: int, whence: int): (r: int)
    requires IsInt64(pos) && IsInt64(offset)
    ensures IsInt64(r)
  {
    if whence == SEEK_START then offset
    else if whence == SEEK_CURRENT then Wrap64(pos + offset)
    else if whence == SEEK_END then Wrap64(Wrap64(known) + offset)
    else 0
  }

  /** The position meant, in unbounded arithmetic. */
  function Meant(pos: int, size: nat, offset: int, whence: int): int {
    if whence == SEEK_START then offset else if whence == SEEK_CURRENT then pos + offset else size + offset
  }

  predicate Inside(x: int, size: nat) {
    0 <= x <= size
  }

  /** Both positions are refused, or both are accepted and are the same. */
  predicate SameSeek(pos: int, known: nat, size: nat, offset: int, whence: int)
    requires IsInt64(pos) && IsInt64(offset)
  {
    var r, m := Resolved(pos, known, offset, whence), Meant(pos, size, offset, whence);
    (Inside(r, size) <==> Inside(m, size)) && (Inside(m, size) ==> r == m)
  }

  /** A sum of a position inside an object and an offset wraps only to a position that is refused. */
  lemma WrapRefused(x: int, offset: int, size: nat)
    requires 0 <= x <= MAX_INT64 && size <= MAX_INT64 && IsInt64(offset)
    ensures Inside(Wrap64(x + offset), size) <==> Inside(x + offset, size)
    ensures Inside(x + offset, size) ==> Wrap64(x + offset) == x + offset
  {
    if x + offset > MAX_INT64 {
      assert Wrap64(x + offset) == x + offset - 2 * (MAX_INT64 + 1);
    }
  }

  /**
   Seeks land where they mean to, for every offset, exactly if they are not from the end of an object of
   unknown size.
   */
  lemma SeekIffSizeKnown(pos: int, known: nat, size: nat, whence: int)
    requires 0 <= pos <= size <= MAX_INT64 && SEEK_START <= whence <= SEEK_END && known <= 2 * MAX_INT64 + 1
    ensures (forall offset {:trigger IsInt64(offset)} :: IsInt64(offset) ==> SameSeek(pos, known, size, offset, whence))
      <==> whence != SEEK_END || known == size
  {
    forall offset | IsInt64(offset) && (whence != SEEK_END || known == size)
      ensures SameSeek(pos, known, size, offset, whence)
    {
      WrapRefused(pos, offset, size);
      WrapRefused(size, offset, size);
    }
    if whence == SEEK_END && known != size {
      assert IsInt64(0) && !SameSeek(pos, known, size, 0, whence);
    }
  }

  /** A cursor over an object that reopens the repository's reader when it moves. */
  class ReadSeeker {
    const repo: Repository
    /** The object's size as known so far; 0 for a partial ID. */
    var known: nat
    var pos: int
    var r: Reader?

    ghost predicate Valid()
      reads this, r, if r == null then {} else {r.file}
    {
      && 0 <= pos <= |repo.data| <= MAX_INT64
      && (r != null ==>
        r.Valid() && r.file.data == repo.data && r.file.pos == pos && r.limit == |repo.data| - pos)
    }

    ghost function Opened(): set<object>
      reads this, r
    {
      if r == null then {} else {r, r.file}
    }

    /** Wraps a reader opened at the start of the object, or none yet. */
    constructor (repo: Repository, known: nat, reader: Reader?)
      requires |repo.data| <= MAX_INT64
      requires reader != null ==>
        reader.file.data == repo.data && reader.file.pos == 0 && reader.limit == |repo.data|
      ensures Valid() && pos == 0 && this.repo == repo && this.known == known && r == reader
    {
      this.repo, this.known, pos, r := repo, known, 0, reader;
    }

    method OpenAt(target: int, fault: bool) returns (err: Option<Error>)
      requires Valid() && IsInt64(target)
      modifies this
      ensures Valid() && (err.None? <==> !fault && Inside(target, |repo.data|))
      ensures err.None? ==> pos == target && known == |repo.data| && r != null && fresh(r) && fresh(r.file)
      ensures err.Some? ==> pos == old(pos) && known == old(known) && r == null
      ensures err.Some? ==> err.value == if fault then NotFound else OutOfBounds
    {
      var reader := repo.Read(target, 0, fault);
      if reader.Err? {
        r := null;
        return Some(reader.error);
      }
      pos := target;
      known := |repo.data|;
      r := reader.value;
      err := None;
    }

    /** Reads on from the position, reopening there when nothing is open. */
    method Read(len: nat, offered: nat, fault: bool) returns (bytes: ByteString, eof: bool, err: Option<Error>)
      requires Valid()
      modifies this, Opened()
      ensures Valid() && (err.Some? <==> fault && old(r) == null) && (err.Some? ==> bytes == [])
      ensures pos == old(pos) + |bytes| && bytes == repo.data[old(pos)..pos]
      ensures err.None? ==> |bytes| == Min(Min(len, offered), |repo.data| - old(pos))
      ensures err.None? && len > 0 ==> (eof <==> old(pos) == |repo.data|)
      ensures (err.None? <==> r != null)
      ensures known == if err.None? && old(r) == null then |repo.data| else old(known)
      ensures fresh(Opened() - old(Opened()))
    {
      bytes, eof := [], false;
      if r == null {
        err := OpenAt(pos, fault);
        if err.Some? {
          return;
        }
      }
      err := None;
      ghost var rest := r;
      bytes, eof := r.Read(len, offered);
      FrontPart(repo.data, pos, bytes, rest.Left());
      pos := pos + |bytes|;
    }

    /** Moves to the position asked for, or stays and drops the reader when that cannot be opened. */
    method Seek(offset: int, whence: int, fault: bool) returns (at: int, err: Option<Error>)
      requires Valid() && IsInt64(offset)
      modifies this
      ensures Valid() && at == pos
      ensures err.None? <==> !fault && Inside(Resolved(old(pos), old(known), offset, whence), |repo.data|)
      ensures err.None? ==> pos == Resolved(old(pos), old(known), offset, whence) && known == |repo.data|
      ensures err.Some? ==> pos == old(pos) && known == old(known) && r == null
      ensures (err.None? <==> r != null) && fresh(Opened() - old(Opened()))
    {
      var target := Resolved(pos, known, offset, whence);
      err := OpenAt(target, fault);
      at := pos;
    }
  }

  /** Bytes read from a position and what is left after them, taken apart. */
  lemma FrontPart(data: ByteString, pos: nat, bytes: ByteString, rest: ByteString)
    requires pos <= |data| && data[pos..] == bytes + rest
    ensures pos + |bytes| <= |data| && data[pos..pos + |bytes|] == bytes
  {
    assert data[pos..][..|bytes|] == data[pos..pos + |bytes|];
    assert (bytes + rest)[..|bytes|] == bytes;
  }

  // ---------------------------------------------------------------------------------------
  // Any sequence of reads and seeks
  // ---------------------------------------------------------------------------------------

  datatype Action = DoRead(len: nat, offered: nat, fault: bool) | DoSeek(offset: int, whence: int, fault: bool)

  predicate InRange64(a: Action) {
    a.DoSeek? ==> IsInt64(a.offset)
  }

  /** What a call returns: bytes, the position after it, and whether it succeeded. */
  datatype Shown = Shown(bytes: ByteString, pos: int, ok: bool)

  /** A position in the object, and whether the next read has to open first. */
  datatype Cursor = Cursor(pos: nat, open: bool)

  /** One call on a cursor over the object's bytes, in unbounded arithmetic. */
  function Moved(data: ByteString, c: Cursor, a: Action): (r: (Cursor, Shown))
    requires c.pos <= |data|
    ensures r.0.pos <= |data| && r.1.pos == r.0.pos
  {
    match a
    case DoRead(len, offered, fault) =>
      if fault && !c.open then (c, Shown([], c.pos, false))
      else
        var n := Min(Min(len, offered), |data| - c.pos);
        (Cursor(c.pos + n, true), Shown(data[c.pos..c.pos + n], c.pos + n, true))
    case DoSeek(offset, whence, fault) =>
      var m := Meant(c.pos, |data|, offset, whence);
      if !fault && Inside(m, |data|) then (Cursor(m, true), Shown([], m, true))
      else (Cursor(c.pos, false), Shown([], c.pos, false))
  }

  /** The cursor after the first `k` calls, and what they returned. */
  function Walked(data: ByteString, c: Cursor, actions: seq<Action>, k: nat): (r: (Cursor, seq<Shown>))
    requires c.pos <= |data| && k <= |actions|
    ensures r.0.pos <= |data| && |r.1| == k
  {
    if k == 0 then (c, [])
    else
      var (d, seen) := Walked(data, c, actions, k - 1);
      var (e, shown) := Moved(data, d, actions[k - 1]);
      (e, seen + [shown])
  }

  function BytesOf(seen: seq<Shown>): ByteString {
    if seen == [] then [] else BytesOf(seen[..|seen| - 1]) + seen[|seen| - 1].bytes
  }

  /** One call as the reader makes it: a cursor, the size it believes in, and what is returned. */
  function Acted(data: ByteString, c: Cursor, known: nat, a: Action): (r: (Cursor, nat, Shown))
    requires c.pos <= |data| <= MAX_INT64 && InRange64(a)
    ensures r.0.pos <= |data| && r.2.pos == r.0.pos
  {
    match a
    case DoRead(_, _, _) =>
      var (d, shown) := Moved(data, c, a);
      (d, if shown.ok && !c.open then |data| else known, shown)
    case DoSeek(offset, whence, fault) =>
      var m := Resolved(c.pos, known, offset, whence);
      if !fault && Inside(m, |data|) then (Cursor(m, true), |data|, Shown([], m, true))
      else (Cursor(c.pos, false), known, Shown([], c.pos, false))
  }

  /** A seek from the end before the first open of a partial ID lands at the start, not at the end. */
  lemma SeekEndOfPartial(data: ByteString, fault: bool)
    requires 0 < |data| <= MAX_INT64
    ensures
      var start, toEnd := Cursor(0, false), DoSeek(0, SEEK_END, fault);
      var partial, full := Acted(data, start, 0, toEnd).2, Acted(data, start, |data|, toEnd).2;
      partial.ok == full.ok == !fault && partial.pos == 0 && full.pos == if fault then 0 else |data|
  {
  }

  ghost predicate AllInRange64(actions: seq<Action>) {
    forall i :: 0 <= i < |actions| ==> InRange64(actions[i])
  }

  /** The reader after the first `k` calls, the size it then believes in, and what they returned. */
  ghost function Ran(data: ByteString, c: Cursor, known: nat, actions: seq<Action>, k: nat)
      : (r: (Cursor, nat, seq<Shown>))
    requires c.pos <= |data| <= MAX_INT64 && AllInRange64(actions) && k <= |actions|
    ensures r.0.pos <= |data| && |r.2| == k
  {
    if k == 0 then (c, known, [])
    else
      var (d, n, seen) := Ran(data, c, known, actions, k - 1);
      var (e, n', shown) := Acted(data, d, n, actions[k - 1]);
      (e, n', seen + [shown])
  }

  method OneCall(rs: ReadSeeker, a: Action) returns (shown: Shown)
    requires rs.Valid() && InRange64(a)
    modifies rs, rs.Opened()
    ensures rs.Valid() && fresh(rs.Opened() - old(rs.Opened()))
    ensures (Cursor(rs.pos, rs.r != null), rs.known, shown) ==
      Acted(rs.repo.data, Cursor(old(rs.pos), old(rs.r) != null), old(rs.known), a)
  {
    match a {
      case DoRead(len, offered, fault) =>
        var bytes, eof, err := rs.Read(len, offered, fault);
        shown := Shown(bytes, rs.pos, err.None?);
      case DoSeek(offset, whence, fault) =>
        var at, err := rs.Seek(offset, whence, fault);
        shown := Shown([], at, err.None?);
    }
  }

  /**
   Any sequence of reads and seeks, from a full or a partial ID: if every seek is from one of the three known places,
   and from the end only where the size is known by then, they return what a cursor over the object's bytes returns.
   */
  method Drive(rs: ReadSeeker, actions: seq<Action>) returns (seen: seq<Shown>)
    requires rs.Valid() && AllInRange64(actions)
    modifies rs, rs.Opened()
    ensures rs.Valid()
    ensures (Cursor(rs.pos, rs.r != null), rs.known, seen) ==
      Ran(rs.repo.data, Cursor(old(rs.pos), old(rs.r) != null), old(rs.known), actions, |actions|)
    ensures SeeksSure(rs.repo.data, Cursor(old(rs.pos), old(rs.r) != null), old(rs.known), actions, |actions|) ==>
      (Cursor(rs.pos, rs.r != null), seen) ==
        Walked(rs.repo.data, Cursor(old(rs.pos), old(rs.r) != null), actions, |actions|)
  {
    seen := [];
    ghost var start, known := Cursor(rs.pos, rs.r != null), rs.known;
    for k := 0 to |actions|
      invariant rs.Valid() && fresh(rs.Opened() - old(rs.Opened()))
      invariant (Cursor(rs.pos, rs.r != null), rs.known, seen) == Ran(rs.repo.data, start, known, actions, k)
    {
      var shown := OneCall(rs, actions[k]);
      seen := seen + [shown];
    }
    RanIsWalkedIff(rs.repo.data, start, known, actions, |actions|);
    SureMatches(rs.repo.data, start, known, actions, |actions|);
  }

  // ---------------------------------------------------------------------------------------
  // When the calls are a cursor's
  // ---------------------------------------------------------------------------------------

  /** A seek that is not refused for another reason lands where it means to, or is refused as it should be. */
  predicate Matches(data: ByteString, c: Cursor, known: nat, a: Action)
    requires c.pos <= |data| <= MAX_INT64 && InRange64(a)
  {
    a.DoSeek? && !a.fault ==> SameSeek(c.pos, known, |data|, a.offset, a.whence)
  }

  ghost predicate SeeksMatch(data: ByteString, c: Cursor, known: nat, actions: seq<Action>, k: nat)
    requires c.pos <= |data| <= MAX_INT64 && AllInRange64(actions) && k <= |actions|
  {
    k == 0 || (
      && SeeksMatch(data, c, known, actions, k - 1)
      && var (d, n, _) := Ran(data, c, known, actions, k - 1); Matches(data, d, n, actions[k - 1]))
  }

  /** From a known place, and from the end only once the size is known. */
  predicate Sure(size: nat, known: nat, a: Action) {
    a.DoSeek? ==> SEEK_START <= a.whence <= SEEK_END && (a.whence == SEEK_END ==> known == size)
  }

  ghost predicate SeeksSure(data: ByteString, c: Cursor, known: nat, actions: seq<Action>, k: nat)
    requires c.pos <= |data| <= MAX_INT64 && AllInRange64(actions) && k <= |actions|
  {
    k == 0 || (
      && SeeksSure(data, c, known, actions, k - 1)
      && Sure(|data|, Ran(data, c, known, actions, k - 1).1, actions[k - 1]))
  }

  /** One call returns what a cursor returns if and only if its seek matches. */
  lemma ActedIsMovedIff(data: ByteString, c: Cursor, known: nat, a: Action)
    requires c.pos <= |data| <= MAX_INT64 && InRange64(a)
    ensures Acted(data, c, known, a).2 == Moved(data, c, a).1 <==> Matches(data, c, known, a)
    ensures Matches(data, c, known, a) ==> Acted(data, c, known, a).0 == Moved(data, c, a).0
  {
  }

  /** All calls return what a cursor over the object's bytes returns if and only if every seek among them matches. */
  lemma {:induction false} RanIsWalkedIff(data: ByteString, c: Cursor, known: nat, actions: seq<Action>, k: nat)
    requires c.pos <= |data| <= MAX_INT64 && AllInRange64(actions) && k <= |actions|
    ensures Ran(data, c, known, actions, k).2 == Walked(data, c, actions, k).1 <==>
      SeeksMatch(data, c, known, actions, k)
    ensures SeeksMatch(data, c, known, actions, k) ==>
      Ran(data, c, known, actions, k).0 == Walked(data, c, actions, k).0
  {
    if k > 0 {
      RanIsWalkedIff(data, c, known, actions, k - 1);
      var (d, n, seen) := Ran(data, c, known, actions, k - 1);
      var (e, seen') := Walked(data, c, actions, k - 1);
      SameSnoc(seen, seen', Acted(data, d, n, actions[k - 1]).2, Moved(data, e, actions[k - 1]).1);
      ActedIsMovedIff(data, d, n, actions[k - 1]);
    }
  }

  lemma SameSnoc<T>(a: seq<T>, b: seq<T>, x: T, y: T)
    requires |a| == |b|
    ensures a + [x] == b + [y] <==> a == b && x == y
  {
    if a + [x] == b + [y] {
      assert a == (a + [x])[..|a|] == (b + [y])[..|b|] == b;
      assert x == (a + [x])[|a|] == (b + [y])[|b|] == y;
    }
  }

  lemma {:induction false} SureMatches(data: ByteString, c: Cursor, known: nat, actions: seq<Action>, k: nat)
    requires c.pos <= |data| <= MAX_INT64 && AllInRange64(actions) && k <= |actions|
    ensures SeeksSure(data, c, known, actions, k) ==> SeeksMatch(data, c, known, actions, k)
  {
    if k > 0 {
      SureMatches(data, c, known, actions, k - 1);
      var (d, n, _) := Ran(data, c, known, actions, k - 1);
      SureIsSame(data, d, n, actions[k - 1]);
    }
  }

  lemma SureIsSame(data: ByteString, c: Cursor, known: nat, a: Action)
    requires c.pos <= |data| <= MAX_INT64 && InRange64(a)
    ensures Sure(|data|, known, a) ==> Matches(data, c, known, a)
  {
    if a.DoSeek? {
      WrapRefused(c.pos, a.offset, |data|);
      WrapRefused(|data|, a.offset, |data|);
    }
  }

  /**
   The first open teaches the size: after a call that succeeds on a closed reader every later size is the
   object's.
   */
  lemma {:induction false} SizeLearned(data: ByteString, c: Cursor, known: nat, actions: seq<Action>, j: nat, k: nat)
    requires c.pos <= |data| <= MAX_INT64 && AllInRange64(actions) && j < k <= |actions|
    requires !Ran(data, c, known, actions, j).0.open && Ran(data, c, known, actions, j + 1).2[j].ok
    ensures Ran(data, c, known, actions, k).1 == |data|
  {
    if j + 1 < k {
      SizeLearned(data, c, known, actions, j, k - 1);
    } else {
      var (d, n, seen) := Ran(data, c, known, actions, j);
      assert (seen + [Acted(data, d, n, actions[j]).2])[j] == Acted(data, d, n, actions[j]).2;
    }
  }

  // ---------------------------------------------------------------------------------------
  // Failing seeks
  // ---------------------------------------------------------------------------------------

  /** No seek among the first `k` calls succeeds. */
  ghost predicate SeeksFail(data: ByteString, c: Cursor, known: nat, actions: seq<Action>, k: nat)
    requires c.pos <= |data| <= MAX_INT64 && AllInRange64(actions) && k <= |actions|
  {
    k == 0 || (
      && SeeksFail(data, c, known, actions, k - 1)
      && var (d, n, _) := Ran(data, c, known, actions, k - 1);
      && (actions[k - 1].DoSeek? ==> !Acted(data, d, n, actions[k - 1]).2.ok))
  }

  lemma {:induction false} SeeksFailIff(data: ByteString, c: Cursor, known: nat, actions: seq<Action>, k: nat)
    requires c.pos <= |data| <= MAX_INT64 && AllInRange64(actions) && k <= |actions|
    ensures SeeksFail(data, c, known, actions, k) <==>
      forall i :: 0 <= i < k && actions[i].DoSeek? ==> !Ran(data, c, known, actions, k).2[i].ok
  {
    if k > 0 {
      var (d, n, seen) := Ran(data, c, known, actions, k - 1);
      var shown := Acted(data, d, n, actions[k - 1]).2;
      SeeksFailIff(data, c, known, actions, k - 1);
      assert Ran(data, c, known, actions, k).2 == seen + [shown];
      assert (seen + [shown])[k - 1] == shown && forall i :: 0 <= i < k - 1 ==> (seen + [shown])[i] == seen[i];
    }
  }

  /** A read, or a seek that fails, returns the bytes between the positions before and after it. */
  lemma ActedOn(data: ByteString, c: Cursor, known: nat, a: Action)
    requires c.pos <= |data| <= MAX_INT64 && InRange64(a) && (a.DoSeek? ==> !Acted(data, c, known, a).2.ok)
    ensures var (e, _, shown) := Acted(data, c, known, a); c.pos <= e.pos && shown.bytes == data[c.pos..e.pos]
  {
  }

  /** As long as every seek fails, the reads around them join without a gap. */
  lemma {:induction false} FailedSeeksLoseNothing(data: ByteString, c: Cursor, known: nat, actions: seq<Action>, k: nat)
    requires c.pos <= |data| <= MAX_INT64 && AllInRange64(actions) && k <= |actions|
    requires SeeksFail(data, c, known, actions, k)
    ensures
      var (d, _, seen) := Ran(data, c, known, actions, k);
      c.pos <= d.pos && BytesOf(seen) == data[c.pos..d.pos]
  {
    if k > 0 {
      var (d, n, seen) := Ran(data, c, known, actions, k - 1);
      var (e, _, shown) := Acted(data, d, n, actions[k - 1]);
      FailedSeeksLoseNothing(data, c, known, actions, k - 1);
      ActedOn(data, d, n, actions[k - 1]);
      BytesSnoc(seen, shown);
      Joined(data, c.pos, d.pos, e.pos);
    }
  }

  lemma BytesSnoc(seen: seq<Shown>, shown: Shown)
    ensures BytesOf(seen + [shown]) == BytesOf(seen) + shown.bytes
  {
    assert (seen + [shown])[..|seen|] == seen;
  }

  lemma Joined(data: ByteString, a: nat, b: nat, c: nat)
    requires a <= b <= c <= |data|
    ensures data[a..b] + data[b..c] == data[a..c]
  {
  }

  /** Reads around any failing seeks, from a full or a partial ID, yield the object's bytes in order. */
  method ReadOverFailedSeek(repo: Repository, known: nat, actions: seq<Action>)
      returns (all: ByteString, seen: seq<Shown>)
    requires |repo.data| <= MAX_INT64 && AllInRange64(actions)
    ensures |seen| == |actions| && all == BytesOf(seen)
    ensures (forall i :: 0 <= i < |actions| && actions[i].DoSeek? ==> !seen[i].ok) ==> all <= repo.data
  {
    var rs := new ReadSeeker(repo, known, null);
    seen := Drive(rs, actions);
    all := BytesOf(seen);
    if forall i :: 0 <= i < |actions| && actions[i].DoSeek? ==> !seen[i].ok {
      SeeksFailIff(repo.data, Cursor(0, false), known, actions, |actions|);
      FailedSeeksLoseNothing(repo.data, Cursor(0, false), known, actions, |actions|);
    }
  }
}
