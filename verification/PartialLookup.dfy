/** Finding the one stored object with a given hash: the hash index of a file repository and its upkeep. */
module PartialLookup {
  import opened Bytes

  type Hash = ByteString

  /** A full object ID; a partial one carries the hash alone. */
  datatype ID = ID(hash: Hash, size: nat)

  /** What a name in the repository's directory stands for; a link is to a regular file of that size. */
  datatype Entry = Regular(size: nat) | Link(size: nat) | Other

  datatype Stat = Absent | Fault | IsRegular(size: nat) | NotRegular

  /** A directory entry: the ID its name spells canonically, if any. */
  datatype DirEntry = DirEntry(name: Option<ID>, regular: bool)

  /** An attempt to list the directory; a complete one was not cancelled before its last entry. */
  datatype Listing = Failed | Entries(entries: seq<DirEntry>, cancelAt: nat)

  datatype Answer = Unique(id: ID) | NotFound | Ambiguous | IOError

  type Index = map<Hash, seq<ID>>

  /** What a lookup observes: stats before its listing, the listing, and stats after it. */
  datatype Observed = Observed(before: ID -> Stat, listing: Listing, after: ID -> Stat)

  predicate IsObjectFile(id: ID, st: Stat) {
    st == IsRegular(id.size)
  }

  predicate Complete(l: Listing) {
    l.Entries? && |l.entries| <= l.cancelAt
  }

  predicate NamesObject(e: DirEntry) {
    e.regular && e.name.Some?
  }

  // ---------------------------------------------------------------------------------------
  // The index as a value
  // ---------------------------------------------------------------------------------------

  function Candidates(ids: Index, h: Hash): seq<ID> {
    if h in ids then ids[h] else []
  }

  function WithCandidates(ids: Index, h: Hash, c: seq<ID>): (r: Index)
    ensures Candidates(r, h) == c
    ensures forall x :: x != h ==> Candidates(r, x) == Candidates(ids, x)
  {
    if c == [] then ids - {h} else ids[h := c]
  }

  function Listed(es: seq<DirEntry>, k: nat): Index
    requires k <= |es|
  {
    if k == 0 then map[]
    else
      var ids, e := Listed(es, k - 1), es[k - 1];
      if NamesObject(e) then ids[e.name.value.hash := Candidates(ids, e.name.value.hash) + [e.name.value]] else ids
  }

  function Good(c: seq<ID>, k: nat, stat: ID -> Stat): seq<ID>
    requires k <= |c|
  {
    if k == 0 then []
    else
      var rest := Good(c, k - 1, stat);
      if IsObjectFile(c[k - 1], stat(c[k - 1])) then rest + [c[k - 1]] else rest
  }

  predicate Faulty(c: seq<ID>, stat: ID -> Stat) {
    exists i :: 0 <= i < |c| && stat(c[i]) == Fault
  }

  function AnswerOf(found: seq<ID>): Answer {
    if |found| == 0 then NotFound else if |found| == 1 then Unique(found[0]) else Ambiguous
  }

  function Matched(ids: Index, h: Hash, stat: ID -> Stat): (Answer, Index) {
    var c := Candidates(ids, h);
    if Faulty(c, stat) then (IOError, ids)
    else (AnswerOf(Good(c, |c|, stat)), WithCandidates(ids, h, Good(c, |c|, stat)))
  }

  /** A lookup after a listing. */
  function Relisted(ids: Option<Index>, h: Hash, o: Observed): (Answer, Option<Index>) {
    if Complete(o.listing) then
      var (a, ids') := Matched(Listed(o.listing.entries, |o.listing.entries|), h, o.after);
      (a, Some(ids'))
    else (IOError, ids)
  }

  function Found(ids: Option<Index>, h: Hash, o: Observed): (Answer, Option<Index>) {
    if ids.None? then Relisted(None, h, o)
    else
      var (a, ids') := Matched(ids.value, h, o.before);
      if a == NotFound then Relisted(Some(ids'), h, o) else (a, Some(ids'))
  }

  function Added(ids: Option<Index>, id: ID): Option<Index> {
    if ids.None? || id in Candidates(ids.value, id.hash) then ids
    else Some(ids.value[id.hash := Candidates(ids.value, id.hash) + [id]])
  }

  function Dropped(c: seq<ID>, id: ID): (r: seq<ID>)
    ensures forall x :: x in r <==> x in c && x != id
  {
    if c == [] then []
    else
      var rest := Dropped(c[1..], id);
      assert c == [c[0]] + c[1..];
      if c[0] == id then rest else [c[0]] + rest
  }

  lemma {:induction false} DroppedDistinct(c: seq<ID>, id: ID)
    requires Distinct(c)
    ensures Distinct(Dropped(c, id))
  {
    if c != [] {
      DroppedDistinct(c[1..], id);
      assert c[0] !in c[1..];
      ConsDistinct(c[0], Dropped(c[1..], id));
    }
  }

  lemma ConsDistinct(x: ID, c: seq<ID>)
    requires Distinct(c) && x !in c
    ensures Distinct([x] + c)
  {
  }

  function Evicted(ids: Option<Index>, id: ID): Option<Index> {
    if ids.None? then None else Some(WithCandidates(ids.value, id.hash, Dropped(Candidates(ids.value, id.hash), id)))
  }

  ghost predicate Distinct(c: seq<ID>) {
    forall i, j :: 0 <= i < j < |c| ==> c[i] != c[j]
  }

  // ---------------------------------------------------------------------------------------
  // The repository
  // ---------------------------------------------------------------------------------------

  class Repository {
    var dir: map<ID, Entry>
    /** Not built until the first partial lookup. */
    var ids: Option<Index>
    /** How often the directory was listed. */
    ghost var listings: nat

    constructor (dir: map<ID, Entry>)
      ensures this.dir == dir && ids == None && listings == 0
    {
      this.dir, ids, listings := dir, None, 0;
    }

    /** A listing that fails or is cancelled keeps the index there was. */
    method RefreshIndex(l: Listing) returns (ok: bool)
      modifies this`ids, this`listings
      ensures ok <==> Complete(l)
      ensures ids == if ok then Some(Listed(l.entries, |l.entries|)) else old(ids)
      ensures listings == old(listings) + 1
    {
      listings := listings + 1;
      if l.Failed? {
        return false;
      }
      var built: Index := map[];
      for i := 0 to |l.entries|
        invariant built == Listed(l.entries, i) && i <= l.cancelAt && ids == old(ids)
      {
        if i == l.cancelAt {
          return false;
        }
        var e := l.entries[i];
        if NamesObject(e) {
          built := built[e.name.value.hash := Candidates(built, e.name.value.hash) + [e.name.value]];
        }
      }
      ids := Some(built);
      ok := true;
    }

    method Match(h: Hash, stat: ID -> Stat) returns (a: Answer)
      requires ids.Some?
      modifies this`ids
      ensures ids.Some? && (a, ids.value) == Matched(old(ids).value, h, stat)
    {
      var c := Candidates(ids.value, h);
      var found := [];
      for i := 0 to |c|
        invariant found == Good(c, i, stat) && forall k :: 0 <= k < i ==> stat(c[k]) != Fault
      {
        if stat(c[i]) == Fault {
          return IOError;
        }
        if IsObjectFile(c[i], stat(c[i])) {
          found := found + [c[i]];
        }
      }
      ids := Some(WithCandidates(ids.value, h, found));
      a := AnswerOf(found);
    }

    method FindPartial(h: Hash, o: Observed) returns (a: Answer)
      modifies this`ids, this`listings
      ensures (a, ids) == Found(old(ids), h, o)
      ensures listings <= old(listings) + 1
      ensures a == NotFound ==> listings == old(listings) + 1
    {
      var cold := ids.None?;
      if cold {
        var ok := RefreshIndex(o.listing);
        if !ok {
          return IOError;
        }
        a := Match(h, o.after);
        return;
      }
      a := Match(h, o.before);
      if a != NotFound {
        return;
      }
      var ok := RefreshIndex(o.listing);
      if !ok {
        return IOError;
      }
      a := Match(h, o.after);
    }

    method AddObject(id: ID)
      modifies this`ids
      ensures ids == Added(old(ids), id)
    {
      if ids.None? {
        return;
      }
      var c := Candidates(ids.value, id.hash);
      if id in c {
        return;
      }
      ids := Some(ids.value[id.hash := c + [id]]);
    }

    method Evict(id: ID)
      modifies this`ids
      ensures ids == Evicted(old(ids), id)
    {
      if ids.None? {
        return;
      }
      ids := Some(WithCandidates(ids.value, id.hash, Dropped(Candidates(ids.value, id.hash), id)));
    }

    /** Moves a finished file to its name, unless a regular file already has it. */
    method Publish(id: ID, st: Stat, renamed: bool) returns (ok: bool)
      modifies this`dir, this`ids
      ensures State() == Next(old(State()), PublishOp(id, st, renamed))
      ensures ok <==> st.IsRegular? || renamed
    {
      if !st.IsRegular? {
        if !renamed {
          return false;
        }
        dir := dir[id := Regular(id.size)];
      }
      AddObject(id);
      ok := true;
    }

    method RemoveObject(id: ID, removed: bool) returns (err: Option<Answer>)
      modifies this`dir, this`ids
      ensures State() == Removed(old(State()), id, removed)
      ensures err == if id !in old(dir) then Some(NotFound) else if removed then None else Some(IOError)
    {
      if id in dir {
        if !removed {
          return Some(IOError);
        }
        dir := dir - {id};
        Evict(id);
        return None;
      }
      Evict(id);
      err := Some(NotFound);
    }

    method DeletePartial(h: Hash, o: Observed, removed: bool) returns (err: Option<Answer>)
      modifies this
      ensures State() == Next(old(State()), DeletePartialOp(h, o, removed))
      ensures
        var f := Found(old(ids), h, o).0;
        err == if !f.Unique? then Some(f)
               else if f.id !in old(dir) then Some(NotFound)
               else if removed then None else Some(IOError)
    {
      var a := FindPartial(h, o);
      if !a.Unique? {
        return Some(a);
      }
      err := RemoveObject(a.id, removed);
    }

    /**
     The second half of a read of a partial ID, after `FindPartial` found `id` and released the lock: the file is opened
     without it, and a file that does not open is evicted under it, whatever happened in between.
     */
    method OpenFound(id: ID, readable: bool) returns (a: Answer)
      modifies this`ids
      ensures State() == if readable then old(State()) else Next(old(State()), EvictOp(id))
      ensures a == if readable then Unique(id) else NotFound
    {
      if !readable {
        Evict(id);
        return NotFound;
      }
      a := Unique(id);
    }

    /** A read of a partial ID with nothing else going on between its halves. */
    method ReadPartial(h: Hash, o: Observed, readable: bool) returns (a: Answer)
      modifies this`ids, this`listings
      ensures
        var found := Next(old(State()), FindOp(h, o));
        var f := Found(old(ids), h, o).0;
        State() == (if f.Unique? && !readable then Next(found, EvictOp(f.id)) else found) &&
        a == (if f.Unique? && !readable then NotFound else f)
    {
      a := FindPartial(h, o);
      if a.Unique? {
        a := OpenFound(a.id, readable);
      }
    }

    ghost function State(): Repo
      reads this
    {
      Repo(dir, ids)
    }
  }

  // ---------------------------------------------------------------------------------------
  // Whatever happens to the directory meanwhile
  // ---------------------------------------------------------------------------------------

  lemma {:induction false} GoodOrigin(c: seq<ID>, k: nat, stat: ID -> Stat, id: ID)
    requires k <= |c|
    ensures id in Good(c, k, stat) <==> id in c[..k] && IsObjectFile(id, stat(id))
  {
    if k > 0 {
      GoodOrigin(c, k - 1, stat, id);
      TakeOneMore(c, k - 1);
    }
  }

  lemma {:induction false} GoodDistinct(c: seq<ID>, k: nat, stat: ID -> Stat)
    requires k <= |c| && Distinct(c)
    ensures Distinct(Good(c, k, stat))
  {
    if k > 0 {
      GoodDistinct(c, k - 1, stat);
      GoodOrigin(c, k - 1, stat, c[k - 1]);
    }
  }

  ghost predicate Lists(es: seq<DirEntry>, k: nat, id: ID)
    requires k <= |es|
  {
    exists i :: 0 <= i < k && NamesObject(es[i]) && es[i].name.value == id
  }

  lemma {:induction false} ListedOrigin(es: seq<DirEntry>, k: nat, h: Hash, id: ID)
    requires k <= |es|
    ensures id in Candidates(Listed(es, k), h) <==> id.hash == h && Lists(es, k, id)
  {
    if k > 0 {
      ListedOrigin(es, k - 1, h, id);
      assert Lists(es, k - 1, id) ==> Lists(es, k, id);
      assert Lists(es, k, id) ==> Lists(es, k - 1, id) || (NamesObject(es[k - 1]) && es[k - 1].name.value == id);
    }
  }

  /** An ID is returned only after its file was seen regular and of its size. */
  lemma UniqueWasSeen(ids: Option<Index>, h: Hash, o: Observed)
    requires Found(ids, h, o).0.Unique?
    ensures var id := Found(ids, h, o).0.id;
      || (ids.Some? && IsObjectFile(id, o.before(id)))
      || (Complete(o.listing) && IsObjectFile(id, o.after(id)))
  {
    if ids.Some? {
      MatchSeen(ids.value, h, o.before);
    }
    if Complete(o.listing) {
      MatchSeen(Listed(o.listing.entries, |o.listing.entries|), h, o.after);
    }
  }

  lemma MatchSeen(ids: Index, h: Hash, stat: ID -> Stat)
    ensures var a := Matched(ids, h, stat).0; a.Unique? ==> a.id in Candidates(ids, h) && IsObjectFile(a.id, stat(a.id))
    ensures Matched(ids, h, stat).0 == NotFound ==>
      forall id :: id in Candidates(ids, h) ==> !IsObjectFile(id, stat(id))
  {
    var c := Candidates(ids, h);
    var good := Good(c, |c|, stat);
    assert c[..|c|] == c;
    forall id ensures id in good <==> id in c && IsObjectFile(id, stat(id)) {
      GoodOrigin(c, |c|, stat, id);
    }
    if |good| == 1 { assert good[0] in good; }
  }

  /** Not found is answered only after a complete listing, in this lookup, that named no such file. */
  lemma NotFoundAfterListing(ids: Option<Index>, h: Hash, o: Observed)
    requires Found(ids, h, o).0 == NotFound
    ensures Complete(o.listing)
    ensures forall id: ID :: id.hash == h && Lists(o.listing.entries, |o.listing.entries|, id) ==>
      !IsObjectFile(id, o.after(id))
  {
    var es := o.listing.entries;
    MatchSeen(Listed(es, |es|), h, o.after);
    forall id: ID | id.hash == h && Lists(es, |es|, id) ensures id in Candidates(Listed(es, |es|), h) {
      ListedOrigin(es, |es|, h, id);
    }
  }

  ghost predicate NoFault(stat: ID -> Stat) {
    forall id :: stat(id) != Fault
  }

  /** A lookup fails only if a stat failed or it had to list the directory and could not. */
  lemma ErrorHasCause(ids: Option<Index>, h: Hash, o: Observed)
    requires Found(ids, h, o).0 == IOError
    ensures !NoFault(o.before) || !NoFault(o.after) || !Complete(o.listing)
    ensures ids.Some? && (exists id :: id in Candidates(ids.value, h) && IsObjectFile(id, o.before(id))) ==>
      !NoFault(o.before)
  {
    if ids.Some? {
      MatchSeen(ids.value, h, o.before);
    }
  }

  // ---------------------------------------------------------------------------------------
  // Operations one at a time
  // ---------------------------------------------------------------------------------------

  datatype Repo = Repo(dir: map<ID, Entry>, ids: Option<Index>)

  datatype Op =
    | PublishOp(id: ID, st: Stat, renamed: bool)
    | FindOp(h: Hash, o: Observed)
    | EvictOp(id: ID)
    | DeleteOp(id: ID, removed: bool)
    | DeletePartialOp(h: Hash, o: Observed, removed: bool)
    | OutsideOp(id: ID, entry: Option<Entry>)

  ghost function Removed(s: Repo, id: ID, removed: bool): Repo {
    if id in s.dir && !removed then s else Repo(s.dir - {id}, Evicted(s.ids, id))
  }

  ghost function Next(s: Repo, op: Op): Repo {
    match op
    case PublishOp(id, st, renamed) =>
      if st.IsRegular? then s.(ids := Added(s.ids, id))
      else if renamed then Repo(s.dir[id := Regular(id.size)], Added(s.ids, id))
      else s
    case FindOp(h, o) => s.(ids := Found(s.ids, h, o).1)
    case EvictOp(id) => s.(ids := Evicted(s.ids, id))
    case DeleteOp(id, removed) => Removed(s, id, removed)
    case DeletePartialOp(h, o, removed) =>
      var (a, ids) := Found(s.ids, h, o);
      if a.Unique? then Removed(s.(ids := ids), a.id, removed) else s.(ids := ids)
    case OutsideOp(id, entry) => s.(dir := if entry.Some? then s.dir[id := entry.value] else s.dir - {id})
  }

  ghost predicate Stored(dir: map<ID, Entry>, id: ID) {
    id in dir && dir[id] == Regular(id.size)
  }

  function StatOf(dir: map<ID, Entry>, id: ID): Stat {
    if id !in dir then Absent
    else match dir[id]
      case Regular(n) => IsRegular(n)
      case Link(n) => IsRegular(n)
      case Other => NotRegular
  }

  /** What a stat, a listing and an open report when nothing else runs; each may also fail. */
  ghost predicate HonestStat(dir: map<ID, Entry>, stat: ID -> Stat) {
    forall id :: stat(id) == StatOf(dir, id) || stat(id) == Fault
  }

  ghost predicate Honest(dir: map<ID, Entry>, o: Observed) {
    HonestStat(dir, o.before) && HonestStat(dir, o.after) && (o.listing.Entries? ==> ListsDir(o.listing.entries, dir))
  }

  ghost predicate ListsDir(es: seq<DirEntry>, dir: map<ID, Entry>) {
    && (forall i, j :: 0 <= i < j < |es| && es[i].name.Some? ==> es[i].name != es[j].name)
    && (forall id :: Lists(es, |es|, id) <==> id in dir && dir[id].Regular?)
  }

  /** Files enter only by being published, and a file is evicted as unreadable only when it is not stored. */
  ghost predicate Allowed(s: Repo, op: Op) {
    match op
    case PublishOp(id, st, _) => st == StatOf(s.dir, id) || st == Fault
    case FindOp(_, o) => Honest(s.dir, o)
    case EvictOp(id) => !Stored(s.dir, id)
    case DeleteOp(_, _) => true
    case DeletePartialOp(_, o, _) => Honest(s.dir, o)
    case OutsideOp(id, entry) => entry.Some? ==> !entry.value.Link? && entry.value != Regular(id.size)
  }

  ghost predicate IndexInv(dir: map<ID, Entry>, ids: Index) {
    && (forall id :: Stored(dir, id) ==> id in Candidates(ids, id.hash))
    && (forall h :: Sound(ids, h))
  }

  ghost predicate Sound(ids: Index, h: Hash) {
    Distinct(Candidates(ids, h)) && forall id :: id in Candidates(ids, h) ==> id.hash == h
  }

  ghost predicate NoLinks(dir: map<ID, Entry>) {
    forall id :: id in dir ==> !dir[id].Link?
  }

  ghost predicate Inv(s: Repo) {
    NoLinks(s.dir) && (s.ids.Some? ==> IndexInv(s.dir, s.ids.value))
  }

  /** The answer a fresh listing would give. */
  ghost predicate IsAnswer(a: Answer, dir: map<ID, Entry>, h: Hash) {
    match a
    case NotFound => forall id :: Stored(dir, id) ==> id.hash != h
    case Unique(x) => Stored(dir, x) && x.hash == h && forall id :: Stored(dir, id) && id.hash == h ==> id == x
    case Ambiguous => exists x, y :: x != y && Stored(dir, x) && Stored(dir, y) && x.hash == h && y.hash == h
    case IOError => false
  }

  lemma MatchKeeps(dir: map<ID, Entry>, ids: Index, h: Hash, stat: ID -> Stat)
    requires NoLinks(dir) && IndexInv(dir, ids) && HonestStat(dir, stat)
    ensures var (a, ids') := Matched(ids, h, stat); IndexInv(dir, ids') && (a == IOError || IsAnswer(a, dir, h))
  {
    var c := Candidates(ids, h);
    assert Sound(ids, h) && c[..|c|] == c;
    if !Faulty(c, stat) {
      var good := Good(c, |c|, stat);
      GoodDistinct(c, |c|, stat);
      forall id ensures id in good <==> id.hash == h && Stored(dir, id) {
        GoodOrigin(c, |c|, stat, id);
        if id in c { assert stat(id) != Fault; }
      }
      SetKeeps(dir, ids, h, good);
      if |good| >= 2 {
        assert good[0] in good && good[1] in good;
      } else if |good| == 1 {
        assert good[0] in good;
      }
    }
  }

  lemma SetKeeps(dir: map<ID, Entry>, ids: Index, h: Hash, c: seq<ID>)
    requires IndexInv(dir, ids) && Distinct(c)
    requires forall id :: id in c ==> id.hash == h
    requires forall id :: Stored(dir, id) && id.hash == h ==> id in c
    ensures IndexInv(dir, WithCandidates(ids, h, c))
  {
    var ids' := WithCandidates(ids, h, c);
    forall x ensures Sound(ids', x) {
      assert Sound(ids, x);
    }
  }

  lemma NotListedYet(es: seq<DirEntry>, k: nat, id: ID)
    requires k < |es| && es[k].name == Some(id)
    requires forall i, j :: 0 <= i < j < |es| && es[i].name.Some? ==> es[i].name != es[j].name
    ensures !Lists(es, k, id)
  {
  }

  lemma SnocDistinct(c: seq<ID>, x: ID)
    requires Distinct(c) && x !in c
    ensures Distinct(c + [x])
  {
  }

  lemma {:induction false} ListedDistinct(es: seq<DirEntry>, k: nat, h: Hash)
    requires k <= |es|
    requires forall i, j :: 0 <= i < j < |es| && es[i].name.Some? ==> es[i].name != es[j].name
    ensures Distinct(Candidates(Listed(es, k), h))
  {
    if k > 0 {
      ListedDistinct(es, k - 1, h);
      if NamesObject(es[k - 1]) && es[k - 1].name.value.hash == h {
        var id := es[k - 1].name.value;
        NotListedYet(es, k - 1, id);
        ListedOrigin(es, k - 1, h, id);
        SnocDistinct(Candidates(Listed(es, k - 1), h), id);
      }
    }
  }

  lemma ListedInv(dir: map<ID, Entry>, es: seq<DirEntry>)
    requires ListsDir(es, dir)
    ensures IndexInv(dir, Listed(es, |es|))
  {
    var ids := Listed(es, |es|);
    forall h ensures Sound(ids, h) {
      ListedDistinct(es, |es|, h);
      forall id ensures id in Candidates(ids, h) ==> id.hash == h {
        ListedOrigin(es, |es|, h, id);
      }
    }
    forall id ensures Stored(dir, id) ==> id in Candidates(ids, id.hash) {
      ListedOrigin(es, |es|, id.hash, id);
    }
  }

  lemma RelistedKeeps(s: Repo, h: Hash, o: Observed)
    requires Inv(s) && Honest(s.dir, o)
    ensures var (a, ids) := Relisted(s.ids, h, o); Inv(s.(ids := ids)) && (a == IOError || IsAnswer(a, s.dir, h))
  {
    if Complete(o.listing) {
      ListedInv(s.dir, o.listing.entries);
      MatchKeeps(s.dir, Listed(o.listing.entries, |o.listing.entries|), h, o.after);
    }
  }

  /** One at a time, a lookup answers as a fresh listing would, and keeps the invariant. */
  lemma FoundIsFresh(s: Repo, h: Hash, o: Observed)
    requires Inv(s) && Honest(s.dir, o)
    ensures var (a, ids) := Found(s.ids, h, o); Inv(s.(ids := ids)) && (a == IOError || IsAnswer(a, s.dir, h))
  {
    if ids :| s.ids == Some(ids) {
      MatchKeeps(s.dir, ids, h, o.before);
      RelistedKeeps(s.(ids := Some(Matched(ids, h, o.before).1)), h, o);
    } else {
      RelistedKeeps(s, h, o);
    }
  }

  lemma AddKeeps(dir: map<ID, Entry>, ids: Index, id: ID)
    requires forall x :: Stored(dir, x) && x != id ==> x in Candidates(ids, x.hash)
    requires forall h :: Sound(ids, h)
    ensures IndexInv(dir, Added(Some(ids), id).value)
  {
    var ids' := Added(Some(ids), id).value;
    forall h ensures Sound(ids', h) {
      assert Sound(ids, h) && Sound(ids, id.hash);
    }
  }

  lemma EvictKeeps(dir: map<ID, Entry>, ids: Index, id: ID)
    requires IndexInv(dir, ids) && !Stored(dir, id)
    ensures IndexInv(dir, Evicted(Some(ids), id).value)
  {
    assert Sound(ids, id.hash);
    DroppedDistinct(Candidates(ids, id.hash), id);
    SetKeeps(dir, ids, id.hash, Dropped(Candidates(ids, id.hash), id));
  }

  /** Evicting is harmless exactly when the file is not stored. */
  lemma EvictSafeIff(s: Repo, id: ID)
    requires Inv(s)
    ensures Inv(Next(s, EvictOp(id))) <==> s.ids.None? || !Stored(s.dir, id)
  {
    if s.ids.Some? && !Stored(s.dir, id) {
      EvictKeeps(s.dir, s.ids.value, id);
    }
  }

  lemma RemoveKeeps(s: Repo, id: ID, removed: bool)
    requires Inv(s)
    ensures Inv(Removed(s, id, removed))
  {
    if s.ids.Some? {
      assert forall x :: Stored(s.dir - {id}, x) ==> Stored(s.dir, x);
      EvictKeeps(s.dir - {id}, s.ids.value, id);
    }
  }

  lemma StepKeeps(s: Repo, op: Op)
    requires Inv(s) && Allowed(s, op)
    ensures Inv(Next(s, op))
  {
    match op
    case PublishOp(id, st, renamed) =>
      if s.ids.Some? {
        AddKeeps(s.dir, s.ids.value, id);
        assert forall x :: Stored(s.dir[id := Regular(id.size)], x) && x != id ==> Stored(s.dir, x);
        AddKeeps(s.dir[id := Regular(id.size)], s.ids.value, id);
      }
    case FindOp(h, o) => FoundIsFresh(s, h, o);
    case EvictOp(id) => EvictSafeIff(s, id);
    case DeleteOp(id, removed) => RemoveKeeps(s, id, removed);
    case DeletePartialOp(h, o, removed) =>
      FoundIsFresh(s, h, o);
      var (a, ids) := Found(s.ids, h, o);
      if a.Unique? { RemoveKeeps(s.(ids := ids), a.id, removed); }
    case OutsideOp(id, entry) =>
      assert forall x :: Stored(Next(s, op).dir, x) ==> Stored(s.dir, x);
  }

  /** Publishing stores its file, deleting removes the file it names or finds, and nothing else touches one. */
  lemma StoredAfter(s: Repo, op: Op, x: ID)
    requires !op.OutsideOp?
    ensures
      var put := op.PublishOp? && op.id == x && op.renamed && !op.st.IsRegular?;
      var cut := op.DeleteOp? && op.id == x && op.removed;
      var cutFound := op.DeletePartialOp? && op.removed && Found(s.ids, op.h, op.o).0 == Unique(x);
      Stored(Next(s, op).dir, x) <==> put || (Stored(s.dir, x) && !cut && !cutFound)
  {
  }

  ghost function After(s: Repo, ops: seq<Op>): Repo
    decreases |ops|
  {
    if ops == [] then s else After(Next(s, ops[0]), ops[1..])
  }

  ghost predicate AllAllowed(s: Repo, ops: seq<Op>)
    decreases |ops|
  {
    ops == [] || (Allowed(s, ops[0]) && AllAllowed(Next(s, ops[0]), ops[1..]))
  }

  ghost predicate FreshAnswer(s: Repo, h: Hash, o: Observed) {
    var a := Found(s.ids, h, o).0; a == IOError || IsAnswer(a, s.dir, h)
  }

  /** After any run from an unread directory, a lookup that does not fail answers as a fresh listing would. */
  lemma {:induction false} LookupIsFresh(s: Repo, ops: seq<Op>, h: Hash, o: Observed)
    requires Inv(s) && AllAllowed(s, ops) && Honest(After(s, ops).dir, o)
    ensures FreshAnswer(After(s, ops), h, o)
    decreases |ops|
  {
    if ops == [] {
      FoundIsFresh(s, h, o);
    } else {
      StepKeeps(s, ops[0]);
      LookupIsFresh(Next(s, ops[0]), ops[1..], h, o);
    }
  }

  // ---------------------------------------------------------------------------------------
  // Evicting a stored file
  // ---------------------------------------------------------------------------------------

  ghost predicate OtherStored(dir: map<ID, Entry>, id: ID, x: ID) {
    Stored(dir, x) && x.hash == id.hash && x != id
  }

  /** Exactly one other stored file has the hash. */
  ghost predicate OneOther(dir: map<ID, Entry>, id: ID) {
    exists x :: OtherStored(dir, id, x) && forall y :: OtherStored(dir, id, y) ==> y == x
  }

  /** A stored file is missing from an index that otherwise has them all. */
  ghost predicate Hidden(s: Repo, id: ID) {
    && NoLinks(s.dir) && s.ids.Some? && Stored(s.dir, id) && id !in Candidates(s.ids.value, id.hash)
    && (forall x :: Stored(s.dir, x) && x != id ==> x in Candidates(s.ids.value, x.hash))
    && (forall h :: Sound(s.ids.value, h))
  }

  lemma EvictHides(s: Repo, id: ID)
    requires Inv(s) && s.ids.Some? && Stored(s.dir, id)
    ensures Hidden(Next(s, EvictOp(id)), id)
  {
    var ids, ids' := s.ids.value, Next(s, EvictOp(id)).ids.value;
    assert Sound(ids, id.hash);
    DroppedDistinct(Candidates(ids, id.hash), id);
    forall h ensures Sound(ids', h) {
      assert Sound(ids, h);
    }
  }

  /** What a lookup finds is the other files. */
  lemma HiddenGood(s: Repo, id: ID, stat: ID -> Stat)
    requires Hidden(s, id) && HonestStat(s.dir, stat)
    requires !Faulty(Candidates(s.ids.value, id.hash), stat)
    ensures
      var c := Candidates(s.ids.value, id.hash);
      Distinct(Good(c, |c|, stat)) && forall x :: x in Good(c, |c|, stat) <==> OtherStored(s.dir, id, x)
  {
    var c := Candidates(s.ids.value, id.hash);
    assert Sound(s.ids.value, id.hash) && c[..|c|] == c;
    GoodDistinct(c, |c|, stat);
    forall x ensures x in Good(c, |c|, stat) <==> OtherStored(s.dir, id, x) {
      GoodOrigin(c, |c|, stat, x);
      if x in c { assert stat(x) != Fault; }
    }
  }

  /** The answer of a lookup in a built index. */
  lemma FoundWarm(ids: Index, h: Hash, o: Observed)
    requires !Faulty(Candidates(ids, h), o.before)
    ensures
      var good := Good(Candidates(ids, h), |Candidates(ids, h)|, o.before);
      Found(Some(ids), h, o).0 == if good == [] then Relisted(None, h, o).0 else AnswerOf(good)
  {
  }

  lemma OneOtherAnswer(dir: map<ID, Entry>, id: ID, x: ID)
    requires Stored(dir, id) && forall y :: OtherStored(dir, id, y) <==> y == x
    ensures OneOther(dir, id) && !IsAnswer(Unique(x), dir, id.hash)
  {
    assert OtherStored(dir, id, x);
  }

  lemma TwoOthersAnswer(dir: map<ID, Entry>, id: ID, x: ID, y: ID)
    requires OtherStored(dir, id, x) && OtherStored(dir, id, y) && x != y
    ensures !OneOther(dir, id) && IsAnswer(Ambiguous, dir, id.hash)
  {
    assert Stored(dir, x) && Stored(dir, y);
  }

  /** An answer that counts only the other files is wrong exactly if there is one. */
  lemma OthersAnswerIff(dir: map<ID, Entry>, id: ID, good: seq<ID>)
    requires Stored(dir, id) && Distinct(good) && good != []
    requires forall x :: x in good <==> OtherStored(dir, id, x)
    ensures IsAnswer(AnswerOf(good), dir, id.hash) <==> !OneOther(dir, id)
  {
    if |good| == 1 {
      forall y ensures OtherStored(dir, id, y) <==> y == good[0] {
        assert y in good <==> y == good[0];
      }
      OneOtherAnswer(dir, id, good[0]);
    } else {
      assert good[0] in good && good[1] in good;
      TwoOthersAnswer(dir, id, good[0], good[1]);
    }
  }

  /** A hidden file makes the next lookup of its hash wrong exactly if one other file has it. */
  lemma HiddenAnswerIff(s: Repo, id: ID, o: Observed)
    requires Hidden(s, id) && Honest(s.dir, o) && Found(s.ids, id.hash, o).0 != IOError
    ensures IsAnswer(Found(s.ids, id.hash, o).0, s.dir, id.hash) <==> !OneOther(s.dir, id)
  {
    var c := Candidates(s.ids.value, id.hash);
    var good := Good(c, |c|, o.before);
    assert !Faulty(c, o.before);
    HiddenGood(s, id, o.before);
    FoundWarm(s.ids.value, id.hash, o);
    if good == [] {
      RelistedKeeps(s.(ids := None), id.hash, o);
      assert !OneOther(s.dir, id);
    } else {
      OthersAnswerIff(s.dir, id, good);
    }
  }

  /**
   The next lookup of an evicted file's hash answers as a fresh listing would, if and only if the file is not stored
   or the other stored files with its hash do not number exactly one.
   */
  lemma EvictedAnswerIff(s: Repo, id: ID, o: Observed)
    requires Inv(s) && s.ids.Some? && Honest(s.dir, o)
    requires Found(Next(s, EvictOp(id)).ids, id.hash, o).0 != IOError
    ensures IsAnswer(Found(Next(s, EvictOp(id)).ids, id.hash, o).0, s.dir, id.hash) <==>
      !Stored(s.dir, id) || !OneOther(s.dir, id)
  {
    if Stored(s.dir, id) {
      EvictHides(s, id);
      HiddenAnswerIff(Next(s, EvictOp(id)), id, o);
    } else {
      EvictSafeIff(s, id);
      FoundIsFresh(Next(s, EvictOp(id)), id.hash, o);
    }
  }

  /** Some size that no file in the directory is named with. */
  lemma {:induction false} UnusedSize(dir: map<ID, Entry>) returns (n: nat)
    ensures forall x :: x in dir ==> x.size < n
    decreases |dir|
  {
    if dir == map[] {
      return 0;
    }
    var x :| x in dir;
    var rest := dir - {x};
    assert dir.Keys == rest.Keys + {x} && |dir.Keys| == |rest.Keys| + 1;
    n := UnusedSize(rest);
    n := if x.size < n then n else x.size + 1;
  }

  ghost function Plainly(dir: map<ID, Entry>): Observed {
    Observed(id => StatOf(dir, id), Failed, id => StatOf(dir, id))
  }

  ghost function Others(dir: map<ID, Entry>, id: ID): set<ID> {
    set x | x in dir && OtherStored(dir, id, x)
  }

  /** From every state with a hidden file some run of allowed operations leads to a wrong answer. */
  lemma {:induction false} HiddenGoesWrong(s: Repo, id: ID) returns (ops: seq<Op>)
    requires Hidden(s, id)
    ensures AllAllowed(s, ops) && !FreshAnswer(After(s, ops), id.hash, Plainly(After(s, ops).dir))
    decreases |Others(s.dir, id)|
  {
    if OneOther(s.dir, id) {
      OneOtherIsWrong(s, id);
      ops := [];
    } else if Others(s.dir, id) == {} {
      var op := PublishOther(s, id);
      OneOtherIsWrong(Next(s, op), id);
      ops := Then(s, op, []);
    } else {
      var op := RemoveOther(s, id);
      var rest := HiddenGoesWrong(Next(s, op), id);
      ops := Then(s, op, rest);
    }
  }

  lemma PublishOther(s: Repo, id: ID) returns (op: Op)
    requires Hidden(s, id) && Others(s.dir, id) == {}
    ensures Allowed(s, op) && Hidden(Next(s, op), id) && OneOther(Next(s, op).dir, id)
  {
    var n := UnusedSize(s.dir);
    var x := ID(id.hash, n);
    op := PublishOp(x, Absent, true);
    HiddenStays(s, id, op);
    assert OtherStored(Next(s, op).dir, id, x);
    forall y | OtherStored(Next(s, op).dir, id, y) ensures y == x {
      assert y != x ==> y in Others(s.dir, id);
    }
  }

  lemma RemoveOther(s: Repo, id: ID) returns (op: Op)
    requires Hidden(s, id) && Others(s.dir, id) != {}
    ensures Allowed(s, op) && Hidden(Next(s, op), id) && |Others(Next(s, op).dir, id)| < |Others(s.dir, id)|
  {
    var x :| x in Others(s.dir, id);
    op := OutsideOp(x, None);
    HiddenStays(s, id, op);
    assert Others(Next(s, op).dir, id) == Others(s.dir, id) - {x};
  }

  lemma HiddenStays(s: Repo, id: ID, op: Op)
    requires Hidden(s, id)
    requires
      || (op.PublishOp? && op.id !in s.dir && op.st == Absent && op.renamed)
      || (op.OutsideOp? && op.id != id && op.entry.None?)
    ensures Allowed(s, op) && Hidden(Next(s, op), id)
  {
    var ids, ids' := s.ids.value, Next(s, op).ids.value;
    forall h ensures Sound(ids', h) {
      assert Sound(ids, h) && Sound(ids, op.id.hash);
    }
    assert forall x :: Stored(Next(s, op).dir, x) && x != op.id ==> Stored(s.dir, x);
  }

  lemma OneOtherIsWrong(s: Repo, id: ID)
    requires Hidden(s, id) && OneOther(s.dir, id)
    ensures !FreshAnswer(s, id.hash, Plainly(s.dir))
  {
    var o := Plainly(s.dir);
    var c := Candidates(s.ids.value, id.hash);
    assert !Faulty(c, o.before);
    HiddenGood(s, id, o.before);
    var x :| OtherStored(s.dir, id, x);
    assert x in Good(c, |c|, o.before);
    HiddenAnswerIff(s, id, o);
  }

  lemma Then(s: Repo, op: Op, rest: seq<Op>) returns (ops: seq<Op>)
    requires Allowed(s, op) && AllAllowed(Next(s, op), rest)
    ensures AllAllowed(s, ops) && After(s, ops) == After(Next(s, op), rest)
  {
    ops := [op] + rest;
    assert ops[1..] == rest;
  }

  /** All lookups after all allowed runs stay fresh if and only if no stored file was evicted from a built index. */
  lemma EvictFuturesIff(s: Repo, id: ID)
    requires Inv(s)
    ensures
      var s' := Next(s, EvictOp(id));
      (forall ops, h, o :: AllAllowed(s', ops) && Honest(After(s', ops).dir, o) ==> FreshAnswer(After(s', ops), h, o))
      <==> s.ids.None? || !Stored(s.dir, id)
  {
    var s' := Next(s, EvictOp(id));
    if s.ids.None? || !Stored(s.dir, id) {
      EvictSafeIff(s, id);
      forall ops, h, o | AllAllowed(s', ops) && Honest(After(s', ops).dir, o)
        ensures FreshAnswer(After(s', ops), h, o)
      {
        LookupIsFresh(s', ops, h, o);
      }
    } else {
      EvictHides(s, id);
      var ops := HiddenGoesWrong(s', id);
      assert Honest(After(s', ops).dir, Plainly(After(s', ops).dir));
    }
  }

  /**
   Between the halves of a read the object it found is deleted, so it cannot be opened, and then published again:
   the read evicts a stored file that anyone could read, and some later lookup goes wrong.
   */
  lemma ReadEvictsRepublished(s: Repo, h: Hash, o: Observed, id: ID) returns (ops: seq<Op>)
    requires Inv(s) && Honest(s.dir, o) && Found(s.ids, h, o).0 == Unique(id)
    ensures
      var found := Next(s, FindOp(h, o));
      var deleted := Next(found, DeleteOp(id, true));
      var published := Next(deleted, PublishOp(id, Absent, true));
      var evicted := Next(published, EvictOp(id));
      && Allowed(s, FindOp(h, o)) && Allowed(found, DeleteOp(id, true)) && Allowed(deleted, PublishOp(id, Absent, true))
      && !Stored(deleted.dir, id) && Stored(published.dir, id) && !Allowed(published, EvictOp(id))
      && AllAllowed(evicted, ops) && !FreshAnswer(After(evicted, ops), id.hash, Plainly(After(evicted, ops).dir))
  {
    var found := Next(s, FindOp(h, o));
    var deleted := Next(found, DeleteOp(id, true));
    var published := Next(deleted, PublishOp(id, Absent, true));
    StepKeeps(s, FindOp(h, o));
    StepKeeps(found, DeleteOp(id, true));
    StepKeeps(deleted, PublishOp(id, Absent, true));
    FoundBuilds(s.ids, h, o);
    EvictHides(published, id);
    ops := HiddenGoesWrong(Next(published, EvictOp(id)), id);
  }

  /** A lookup that finds something leaves an index built. */
  lemma FoundBuilds(ids: Option<Index>, h: Hash, o: Observed)
    requires Found(ids, h, o).0.Unique?
    ensures Found(ids, h, o).1.Some?
  {
  }

  /** A stored file evicted because it could not be opened is hidden once another with its hash is published. */
  lemma EvictedWhileStored(h: Hash, o: Observed)
    requires o.before(ID(h, 2)) == IsRegular(2)
    ensures
      var a, b := ID(h, 1), ID(h, 2);
      var s := Next(Next(Repo(map[a := Regular(1)], Some(map[h := [a]])), EvictOp(a)), PublishOp(b, Absent, true));
      Found(s.ids, h, o).0 == Unique(b) && IsAnswer(Ambiguous, s.dir, h)
  {
    var a, b := ID(h, 1), ID(h, 2);
    var s0 := Repo(map[a := Regular(1)], Some(map[h := [a]]));
    var s1 := Next(s0, EvictOp(a));
    assert Dropped([a], a) == [];
    assert Candidates(s1.ids.value, h) == [];
    var s2 := Next(s1, PublishOp(b, Absent, true));
    var c := Candidates(s2.ids.value, h);
    assert c == [b];
    assert Good(c, 0, o.before) == [] && Good(c, 1, o.before) == [b];
    assert Stored(s2.dir, a) && Stored(s2.dir, b);
  }
}
