/** The table of indexed files, and the removal of a root while the table is being paged through. */
module PathIndex {
  import opened Bytes
  import opened Paths
  import opened Coverage

  const BATCH_SIZE: nat := 1000

  datatype Row = Row(id: nat, path: Path, live: bool)

  /** Rows in primary key order; keys start at 1. */
  ghost predicate ValidTable(rows: seq<Row>) {
    && (forall i :: 0 <= i < |rows| ==> rows[i].id > 0)
    && (forall i, j :: 0 <= i < j < |rows| ==> rows[i].id < rows[j].id)
  }

  // ---------------------------------------------------------------------------------------
  // Queries and soft deletion
  // ---------------------------------------------------------------------------------------

  predicate Matches(row: Row, lastID: nat, prefix: Path) {
    row.live && row.id > lastID && (prefix == [] || InRange(row.path, prefix))
  }

  /** One page: the first `limit` matching rows. */
  function Page(rows: seq<Row>, lastID: nat, prefix: Path, limit: nat): seq<Row> {
    if rows == [] || limit == 0 then []
    else if Matches(rows[0], lastID, prefix) then [rows[0]] + Page(rows[1..], lastID, prefix, limit - 1)
    else Page(rows[1..], lastID, prefix, limit)
  }

  /** All rows below a prefix that are live. */
  function Below(rows: seq<Row>, prefix: Path): seq<Row> {
    if rows == [] then []
    else if Matches(rows[0], 0, prefix) then [rows[0]] + Below(rows[1..], prefix)
    else Below(rows[1..], prefix)
  }

  function Deleted(row: Row, paths: seq<Path>): Row {
    if row.path in paths then row.(live := false) else row
  }

  function SoftDeleted(rows: seq<Row>, paths: seq<Path>): seq<Row> {
    seq(|rows|, i requires 0 <= i < |rows| => Deleted(rows[i], paths))
  }

  lemma SoftDeletedTwice(rows: seq<Row>, a: seq<Path>, b: seq<Path>)
    ensures SoftDeleted(SoftDeleted(rows, a), b) == SoftDeleted(rows, a + b)
  {
  }

  lemma ValidTail(rows: seq<Row>)
    requires ValidTable(rows) && rows != []
    ensures ValidTable(rows[1..]) && forall r :: r in rows[1..] ==> r.id > rows[0].id
  {
  }

  lemma {:induction false} BelowOrigin(rows: seq<Row>, prefix: Path, r: Row)
    requires ValidTable(rows)
    ensures r in Below(rows, prefix) <==> r in rows && Matches(r, 0, prefix)
    decreases |rows|
  {
    if rows != [] {
      ValidTail(rows);
      BelowOrigin(rows[1..], prefix, r);
      assert rows == [rows[0]] + rows[1..];
    }
  }

  lemma {:induction false} BelowSorted(rows: seq<Row>, prefix: Path)
    requires ValidTable(rows)
    ensures ValidTable(Below(rows, prefix))
    decreases |rows|
  {
    if rows != [] {
      ValidTail(rows);
      BelowSorted(rows[1..], prefix);
      forall r | r in Below(rows[1..], prefix) ensures r.id > rows[0].id {
        BelowOrigin(rows[1..], prefix, r);
      }
      if Matches(rows[0], 0, prefix) {
        SortedCons(rows[0], Below(rows[1..], prefix));
      }
    }
  }

  lemma SortedCons(r: Row, rest: seq<Row>)
    requires r.id > 0 && ValidTable(rest) && forall x :: x in rest ==> x.id > r.id
    ensures ValidTable([r] + rest)
  {
    var all := [r] + rest;
    forall i, j | 0 <= i < j < |all| ensures all[i].id < all[j].id {
      assert all[j] == rest[j - 1];
      if i > 0 { assert all[i] == rest[i - 1]; }
    }
  }

  /** Rows past the last key are not touched by what was deleted before it, so the next page is unchanged. */
  lemma {:induction false} PageUnaffected(rows: seq<Row>, deleted: seq<Path>, lastID: nat, prefix: Path, limit: nat)
    requires forall r :: r in rows && r.id > lastID ==> r.path !in deleted
    ensures Page(SoftDeleted(rows, deleted), lastID, prefix, limit) == Page(rows, lastID, prefix, limit)
    decreases |rows|
  {
    if rows != [] && limit > 0 {
      assert rows[0] in rows && forall r :: r in rows[1..] ==> r in rows;
      PageUnaffected(rows[1..], deleted, lastID, prefix, limit - 1);
      PageUnaffected(rows[1..], deleted, lastID, prefix, limit);
      assert SoftDeleted(rows, deleted)[1..] == SoftDeleted(rows[1..], deleted);
    }
  }

  /** The rows of `below` past a key. */
  function After(below: seq<Row>, lastID: nat): seq<Row> {
    if below == [] then [] else if below[0].id > lastID then below else After(below[1..], lastID)
  }

  function Take(rows: seq<Row>, limit: nat): seq<Row> {
    if limit < |rows| then rows[..limit] else rows
  }

  /** A page is the next stretch of all rows below the prefix. */
  lemma {:induction false} PageIsStretch(rows: seq<Row>, lastID: nat, prefix: Path, limit: nat)
    requires ValidTable(rows)
    ensures Page(rows, lastID, prefix, limit) == Take(After(Below(rows, prefix), lastID), limit)
    decreases |rows|
  {
    if rows != [] {
      ValidTail(rows);
      PageIsStretch(rows[1..], lastID, prefix, limit);
      var rest := Below(rows[1..], prefix);
      forall r | r in rest ensures r.id > rows[0].id {
        BelowOrigin(rows[1..], prefix, r);
      }
      if Matches(rows[0], 0, prefix) && rows[0].id > lastID && limit > 0 {
        PageIsStretch(rows[1..], lastID, prefix, limit - 1);
        assert rest != [] ==> rest[0] in rest;
        assert After(rest, lastID) == rest;
        TakeCons(rows[0], rest, limit);
      }
    }
  }

  lemma TakeCons(r: Row, rest: seq<Row>, limit: nat)
    requires limit > 0
    ensures Take([r] + rest, limit) == [r] + Take(rest, limit - 1)
  {
  }

  lemma {:induction false} AfterIsSuffix(below: seq<Row>, k: nat)
    requires ValidTable(below) && k <= |below|
    ensures After(below, if k == 0 then 0 else below[k - 1].id) == below[k..]
    decreases |below|
  {
    if below != [] && k > 0 {
      ValidTail(below);
      AfterIsSuffix(below[1..], k - 1);
      if k == 1 {
        assert below[1..] != [] ==> below[1..][0].id > below[0].id;
        if |below| > 1 { assert After(below[1..], below[0].id) == below[1..]; }
      } else {
        assert below[0].id < below[k - 1].id;
        assert below[1..][k - 2] == below[k - 1];
      }
    }
  }

  // ---------------------------------------------------------------------------------------
  // Deleting while paging
  // ---------------------------------------------------------------------------------------

  ghost predicate UniquePaths(rows: seq<Row>) {
    forall i, j :: 0 <= i < j < |rows| ==> rows[i].path != rows[j].path
  }

  ghost predicate Covered(path: Path, ends: set<seq<Segment>>) {
    exists e :: e in ends && e <= Segments(path, SLASH)
  }

  /** The paths of the first `k` rows that are not covered. */
  ghost function Uncovered(rows: seq<Row>, k: nat, ends: set<seq<Segment>>): seq<Path>
    requires k <= |rows|
  {
    if k == 0 then []
    else
      var rest := Uncovered(rows, k - 1, ends);
      if Covered(rows[k - 1].path, ends) then rest else rest + [rows[k - 1].path]
  }

  ghost function AllUncovered(rows: seq<Row>, ends: set<seq<Segment>>): seq<Path> {
    Uncovered(rows, |rows|, ends)
  }

  lemma {:induction false} UncoveredOrigin(rows: seq<Row>, k: nat, ends: set<seq<Segment>>, p: Path)
    requires k <= |rows|
    ensures p in Uncovered(rows, k, ends) <==> exists i :: 0 <= i < k && rows[i].path == p && !Covered(p, ends)
  {
    if k > 0 {
      UncoveredOrigin(rows, k - 1, ends, p);
      if p in Uncovered(rows, k - 1, ends) {
        var i :| 0 <= i < k - 1 && rows[i].path == p && !Covered(p, ends);
        assert 0 <= i < k;
      }
    }
  }

  class FileTable {
    var rows: seq<Row>

    method SoftDeletePaths(paths: seq<Path>)
      modifies this
      ensures rows == SoftDeleted(old(rows), paths)
    {
      if |paths| == 0 {
        return;
      }
      for i := 0 to |rows|
        invariant |rows| == |old(rows)|
        invariant forall k :: 0 <= k < i ==> rows[k] == Deleted(old(rows)[k], paths)
        invariant forall k :: i <= k < |rows| ==> rows[k] == old(rows)[k]
      {
        if rows[i].path in paths {
          rows := rows[i := rows[i].(live := false)];
        }
      }
    }
  }

  class BatchCollector {
    const table: FileTable
    const size: nat
    var batch: seq<Path>

    constructor (size: nat, table: FileTable)
      ensures this.size == size && this.table == table && batch == []
    {
      this.size, this.table, batch := size, table, [];
    }

    method Add(item: Path)
      modifies this, table
      ensures |old(batch)| + 1 < size ==> batch == old(batch) + [item] && table.rows == old(table.rows)
      ensures |old(batch)| + 1 >= size ==>
        batch == [] && table.rows == SoftDeleted(old(table.rows), old(batch) + [item])
    {
      batch := batch + [item];
      if |batch| >= size {
        Flush();
      }
    }

    method Flush()
      modifies this, table
      ensures batch == [] && table.rows == SoftDeleted(old(table.rows), old(batch))
    {
      if |batch| == 0 {
        return;
      }
      table.SoftDeletePaths(batch);
      batch := [];
    }
  }

  /** After visiting `k` of the rows below: some of the uncovered ones are deleted, the rest wait in the batch. */
  ghost predicate Progress(rows0: seq<Row>, below: seq<Row>, k: nat, ends: set<seq<Segment>>,
                           flushed: seq<Path>, batch: seq<Path>, rows: seq<Row>, lastID: nat) {
    && k <= |below|
    && lastID == (if k == 0 then 0 else below[k - 1].id)
    && flushed + batch == Uncovered(below, k, ends)
    && rows == SoftDeleted(rows0, flushed)
  }

  /** The rows visited lie at or before the last key. */
  lemma VisitedBehind(rows0: seq<Row>, prefix: Path, k: nat, lastID: nat, r: Row, i: nat)
    requires ValidTable(rows0) && UniquePaths(rows0) && i < k <= |Below(rows0, prefix)|
    requires lastID == Below(rows0, prefix)[k - 1].id && r in rows0 && r.id > lastID
    ensures Below(rows0, prefix)[i].path != r.path
  {
    var below := Below(rows0, prefix);
    BelowSorted(rows0, prefix);
    assert below[i].id <= below[k - 1].id;
    BelowOrigin(rows0, prefix, below[i]);
  }

  /** What is already deleted lies at or before the last key. */
  lemma FlushedBehind(rows0: seq<Row>, prefix: Path, k: nat, ends: set<seq<Segment>>,
                      flushed: seq<Path>, batch: seq<Path>, rows: seq<Row>, lastID: nat, r: Row)
    requires ValidTable(rows0) && UniquePaths(rows0)
    requires Progress(rows0, Below(rows0, prefix), k, ends, flushed, batch, rows, lastID)
    requires r in rows0 && r.id > lastID
    ensures r.path !in flushed
  {
    var below := Below(rows0, prefix);
    forall i | 0 <= i < k ensures below[i].path != r.path {
      VisitedBehind(rows0, prefix, k, lastID, r, i);
    }
    UncoveredOrigin(below, k, ends, r.path);
    InFront(flushed, batch, r.path);
  }

  lemma InFront<T>(a: seq<T>, b: seq<T>, x: T)
    ensures x in a ==> x in a + b
  {
  }

  /** The page continues at `k`, and is empty only at the end. */
  ghost predicate IsStretch(page: seq<Row>, below: seq<Row>, k: nat) {
    k + |page| <= |below| && (forall j :: 0 <= j < |page| ==> page[j] == below[k + j]) && (page == [] ==> k == |below|)
  }

  lemma PageSlice(below: seq<Row>, k: nat, limit: nat)
    requires k <= |below|
    requires limit > 0
    ensures IsStretch(Take(below[k..], limit), below, k)
  {
  }

  /** The page read in the middle of the deletions is the next stretch of the rows to visit. */
  lemma NextPage(rows0: seq<Row>, prefix: Path, k: nat, ends: set<seq<Segment>>,
                 flushed: seq<Path>, batch: seq<Path>, rows: seq<Row>, lastID: nat)
    requires ValidTable(rows0) && UniquePaths(rows0)
    requires Progress(rows0, Below(rows0, prefix), k, ends, flushed, batch, rows, lastID)
    ensures IsStretch(Page(rows, lastID, prefix, BATCH_SIZE), Below(rows0, prefix), k)
  {
    forall r | r in rows0 && r.id > lastID ensures r.path !in flushed {
      FlushedBehind(rows0, prefix, k, ends, flushed, batch, rows, lastID, r);
    }
    PageUnaffected(rows0, flushed, lastID, prefix, BATCH_SIZE);
    PageIsStretch(rows0, lastID, prefix, BATCH_SIZE);
    BelowSorted(rows0, prefix);
    AfterIsSuffix(Below(rows0, prefix), k);
    PageSlice(Below(rows0, prefix), k, BATCH_SIZE);
  }

  /** Hands one visited path to the collector, unless a narrower root covers it. */
  method Visit(deletes: BatchCollector, trie: PathTrie, row: Row, ghost rows0: seq<Row>, ghost below: seq<Row>,
               ghost k: nat, ghost flushed: seq<Path>, ghost lastID: nat) returns (ok: bool, ghost flushed': seq<Path>)
    requires trie.Valid() && trie.sep == SLASH && k < |below| && row == below[k]
    requires Progress(rows0, below, k, trie.Roots(), flushed, deletes.batch, deletes.table.rows, lastID)
    modifies deletes, deletes.table
    ensures ok <==> IsAbsolute(row.path, SLASH)
    ensures ok ==> Progress(rows0, below, k + 1, trie.Roots(), flushed', deletes.batch, deletes.table.rows, row.id)
  {
    flushed' := flushed;
    var covered := trie.Covers(row.path);
    if covered.None? {
      return false, flushed';
    }
    ok := true;
    if !covered.value {
      ghost var batch := deletes.batch;
      deletes.Add(row.path);
      assert (flushed + batch) + [row.path] == flushed + (batch + [row.path]);
      if deletes.batch == [] {
        SoftDeletedTwice(rows0, flushed, batch + [row.path]);
        flushed' := flushed + (batch + [row.path]);
        assert flushed' + [] == flushed';
      }
    }
  }

  /** Visits one page, the rows from `k` on. */
  method VisitPage(deletes: BatchCollector, trie: PathTrie, page: seq<Row>, lastID: nat, ghost rows0: seq<Row>,
                   ghost below: seq<Row>,
                   ghost k: nat, ghost flushed: seq<Path>) returns (ok: bool, lastID': nat, ghost flushed': seq<Path>)
    requires trie.Valid() && trie.sep == SLASH && IsStretch(page, below, k)
    requires Progress(rows0, below, k, trie.Roots(), flushed, deletes.batch, deletes.table.rows, lastID)
    modifies deletes, deletes.table
    ensures ok ==>
      Progress(rows0, below, k + |page|, trie.Roots(), flushed', deletes.batch, deletes.table.rows, lastID')
    ensures !ok ==> exists i :: 0 <= i < |page| && !IsAbsolute(page[i].path, SLASH)
  {
    ok, lastID', flushed' := true, lastID, flushed;
    ghost var ends := trie.Roots();
    for j := 0 to |page|
      invariant ok && trie.Valid() && trie.Roots() == ends
      invariant Progress(rows0, below, k + j, ends, flushed', deletes.batch, deletes.table.rows, lastID')
    {
      ok, flushed' := Visit(deletes, trie, page[j], rows0, below, k + j, flushed', lastID');
      if !ok {
        return;
      }
      lastID' := page[j].id;
    }
  }

  /** Reads the next page and visits it; the traversal is done when the page is empty. */
  method NextStretch(deletes: BatchCollector, trie: PathTrie, root: Path, lastID: nat, ghost rows0: seq<Row>,
                     ghost k: nat, ghost flushed: seq<Path>)
      returns (done: bool, ok: bool, lastID': nat, ghost k': nat, ghost flushed': seq<Path>)
    requires ValidTable(rows0) && UniquePaths(rows0) && trie.Valid() && trie.sep == SLASH
    requires Progress(rows0, Below(rows0, root), k, trie.Roots(), flushed, deletes.batch, deletes.table.rows, lastID)
    modifies deletes, deletes.table
    ensures ok ==>
      && Progress(rows0, Below(rows0, root), k', trie.Roots(), flushed', deletes.batch, deletes.table.rows, lastID')
      && if done then k' == |Below(rows0, root)| else k < k'
    ensures !ok ==> exists r :: r in rows0 && Matches(r, 0, root) && !IsAbsolute(r.path, SLASH)
  {
    NextPage(rows0, root, k, trie.Roots(), flushed, deletes.batch, deletes.table.rows, lastID);
    var page := Page(deletes.table.rows, lastID, root, BATCH_SIZE);
    if |page| == 0 {
      return true, true, lastID, k, flushed;
    }
    done, k' := false, k + |page|;
    ok, lastID', flushed' := VisitPage(deletes, trie, page, lastID, rows0, Below(rows0, root), k, flushed);
    if !ok {
      RelativeRow(rows0, root, page, k);
    }
  }

  /** Pages through the rows below `root` and deletes those no narrower root covers. */
  method DeleteUncovered(table: FileTable, trie: PathTrie, root: Path) returns (ok: bool)
    requires ValidTable(table.rows) && UniquePaths(table.rows) && trie.Valid() && trie.sep == SLASH
    modifies table
    ensures ok ==> table.rows == SoftDeleted(old(table.rows), AllUncovered(Below(old(table.rows), root), trie.Roots()))
    ensures !ok ==> exists r :: r in old(table.rows) && Matches(r, 0, root) && !IsAbsolute(r.path, SLASH)
  {
    ghost var rows0 := table.rows;
    ghost var k, flushed: seq<Path>, ends := 0, [], trie.Roots();
    var deletes := new BatchCollector(BATCH_SIZE, table);
    var done, lastID := false, 0;
    NothingVisited(rows0, Below(rows0, root), ends);
    while !done
      invariant trie.Valid() && trie.Roots() == ends
      invariant Progress(rows0, Below(rows0, root), k, ends, flushed, deletes.batch, table.rows, lastID)
      invariant done ==> k == |Below(rows0, root)|
      decreases !done, |Below(rows0, root)| - k
    {
      done, ok, lastID, k, flushed := NextStretch(deletes, trie, root, lastID, rows0, k, flushed);
      if !ok {
        return;
      }
    }
    AllVisited(rows0, Below(rows0, root), ends, flushed, deletes.batch, table.rows, lastID);
    deletes.Flush();
    ok := true;
  }

  lemma RelativeRow(rows0: seq<Row>, prefix: Path, page: seq<Row>, k: nat)
    requires ValidTable(rows0) && IsStretch(page, Below(rows0, prefix), k)
    requires exists i :: 0 <= i < |page| && !IsAbsolute(page[i].path, SLASH)
    ensures exists r :: r in rows0 && Matches(r, 0, prefix) && !IsAbsolute(r.path, SLASH)
  {
    var i :| 0 <= i < |page| && !IsAbsolute(page[i].path, SLASH);
    assert page[i] == Below(rows0, prefix)[k + i];
    BelowOrigin(rows0, prefix, page[i]);
  }

  lemma NothingVisited(rows0: seq<Row>, below: seq<Row>, ends: set<seq<Segment>>)
    ensures Progress(rows0, below, 0, ends, [], [], rows0, 0)
  {
    assert SoftDeleted(rows0, []) == rows0;
  }

  lemma AllVisited(rows0: seq<Row>, below: seq<Row>, ends: set<seq<Segment>>,
                   flushed: seq<Path>, batch: seq<Path>, rows: seq<Row>, lastID: nat)
    requires Progress(rows0, below, |below|, ends, flushed, batch, rows, lastID)
    ensures SoftDeleted(rows, batch) == SoftDeleted(rows0, AllUncovered(below, ends))
  {
    SoftDeletedTwice(rows0, flushed, batch);
  }

  // ---------------------------------------------------------------------------------------
  // Roots
  // ---------------------------------------------------------------------------------------

  datatype RootError = NotAbsolute | NotRegistered

  /** Every live row lies at or below some root; deleted rows may be anywhere. */
  ghost predicate BelowRoots(rows: seq<Row>, roots: seq<Path>) {
    forall r :: r in rows && r.live ==> Clean(r.path, SLASH) && CoveredBy(r.path, roots, SLASH)
  }

  ghost predicate CleanRoots(roots: seq<Path>) {
    forall x :: x in roots ==> Clean(x, SLASH)
  }

  /** The root and the registered roots are clean, and every live row is covered by one of them. */
  ghost predicate Cleaned(rows: seq<Row>, roots: seq<Path>, root: Path) {
    Clean(root, SLASH) && CleanRoots(roots) && BelowRoots(rows, roots)
  }

  /** No live row is a registered root itself. */
  ghost predicate RowsAreNotRoots(rows: seq<Row>, roots: seq<Path>) {
    forall r :: r in rows && r.live ==> r.path !in roots
  }

  /** The range below a root leaves out the root itself, except for the top. */
  predicate Spared(path: Path, root: Path) {
    path == root && root != [SLASH]
  }

  /**
   A row lives on exactly if it was live and a root covers it, or it is the removed root itself;
   nothing else about it changes.
   */
  ghost predicate KeptIfCovered(r: Row, r': Row, roots: seq<Path>, removed: Path) {
    r' == r.(live := r.live && (CoveredBy(r.path, roots, SLASH) || Spared(r.path, removed)))
  }

  ghost predicate OnlyCoveredLive(rows: seq<Row>, rows': seq<Row>, roots: seq<Path>, removed: Path) {
    |rows'| == |rows| && forall i :: 0 <= i < |rows| ==> KeptIfCovered(rows[i], rows'[i], roots, removed)
  }

  function Without(roots: seq<Path>, root: Path): (r: seq<Path>)
    ensures forall x :: x in r <==> x in roots && x != root
  {
    if roots == [] then []
    else if roots[0] == root then Without(roots[1..], root)
    else [roots[0]] + Without(roots[1..], root)
  }

  ghost predicate Narrower(narrower: seq<Path>, roots: seq<Path>, root: Path) {
    forall x :: x in narrower <==> x in roots && x != root && PathUnder(x, root, SLASH)
  }

  /** Two clean roots with a path under both: one is under the other. */
  lemma RootsNest(path: Path, x: Path, y: Path)
    requires Clean(path, SLASH) && Clean(x, SLASH) && Clean(y, SLASH)
    requires PathUnder(path, x, SLASH) && PathUnder(path, y, SLASH)
    ensures PathUnder(x, y, SLASH) || PathUnder(y, x, SLASH)
  {
    var a :| Names(a, SLASH) && path == Abs(a, SLASH);
    var b :| Names(b, SLASH) && x == Abs(b, SLASH);
    var c :| Names(c, SLASH) && y == Abs(c, SLASH);
    UnderIsPrefix(a, b, SLASH);
    UnderIsPrefix(a, c, SLASH);
    UnderIsPrefix(b, c, SLASH);
    UnderIsPrefix(c, b, SLASH);
    PrefixesNest(a, b, c);
  }

  lemma PrefixesNest<T>(a: seq<T>, b: seq<T>, c: seq<T>)
    requires b <= a && c <= a
    ensures b <= c || c <= b
  {
  }

  /** When a wider root remains, every row below the removed root is still covered. */
  lemma WiderRootCovers(path: Path, roots: seq<Path>, root: Path, other: Path)
    requires Clean(path, SLASH) && Clean(root, SLASH) && CleanRoots(roots)
    requires other in roots && other != root && PathUnder(root, other, SLASH)
    requires CoveredBy(path, roots, SLASH)
    ensures CoveredBy(path, Without(roots, root), SLASH)
  {
    var r :| r in roots && PathUnder(path, r, SLASH);
    if r == root {
      UnderTransitive(path, root, other, SLASH);
      assert other in Without(roots, root);
    } else {
      assert r in Without(roots, root);
    }
  }

  /**
   When no wider root remains, a row is still covered exactly if it is not at or below the root or a narrower
   root covers it.
   */
  lemma NarrowerDecides(path: Path, roots: seq<Path>, root: Path, narrower: seq<Path>, ends: set<seq<Segment>>)
    requires Clean(path, SLASH) && Clean(root, SLASH) && CleanRoots(roots)
    requires forall other :: other in roots && other != root ==> !PathUnder(root, other, SLASH)
    requires Narrower(narrower, roots, root) && AllSegments(narrower, SLASH, ends)
    requires CoveredBy(path, roots, SLASH)
    ensures !InRange(path, root) || Covered(path, ends) <==>
      CoveredBy(path, Without(roots, root), SLASH) || Spared(path, root)
  {
    TrieIsPathUnder(path, narrower, SLASH, ends);
    RangeIsStrictlyUnder(path, root);
    if x :| x in Without(roots, root) && PathUnder(path, x, SLASH) {
      if InRange(path, root) {
        RootsNest(path, root, x);
        assert x in narrower;
      }
    }
    if !InRange(path, root) && !Spared(path, root) {
      var r :| r in roots && PathUnder(path, r, SLASH);
      assert r in Without(roots, root);
    }
    if Covered(path, ends) {
      var x :| x in narrower && PathUnder(path, x, SLASH);
      assert x in Without(roots, root);
    }
  }

  class Indexer {
    var roots: seq<Path>
    const table: FileTable

    constructor (table: FileTable)
      ensures this.table == table && roots == []
    {
      this.table, roots := table, [];
    }

    method RemoveFromRoots(root: Path) returns (err: Option<RootError>)
      modifies this`roots
      ensures roots == Without(old(roots), root)
      ensures err == if root in old(roots) then None else Some(NotRegistered)
    {
      err := if root in roots then None else Some(NotRegistered);
      roots := Without(roots, root);
    }

    /** A root other than `root` that has it under it, if any. */
    method WiderRoot(root: Path) returns (wider: Option<Path>)
      ensures wider.Some? ==> wider.value in roots && wider.value != root && PathUnder(root, wider.value, SLASH)
      ensures wider.None? ==> forall other :: other in roots && other != root ==> !PathUnder(root, other, SLASH)
    {
      for i := 0 to |roots|
        invariant forall k :: 0 <= k < i && roots[k] != root ==> !PathUnder(root, roots[k], SLASH)
      {
        if roots[i] != root && PathUnder(root, roots[i], SLASH) {
          return Some(roots[i]);
        }
      }
      wider := None;
    }

    method NarrowerRoots(root: Path) returns (narrower: seq<Path>)
      ensures Narrower(narrower, roots, root)
    {
      narrower := [];
      for i := 0 to |roots|
        invariant forall x :: x in narrower <==> x in roots[..i] && x != root && PathUnder(x, root, SLASH)
      {
        if roots[i] != root && PathUnder(roots[i], root, SLASH) {
          narrower := narrower + [roots[i]];
        }
      }
    }

    /**
     Removes a cleaned root. For clean live rows covered by the roots, the rows left live are exactly those that a
     remaining root covers, besides a row that is the removed root itself.
     */
    method RemoveRoot(root: Path) returns (err: Option<RootError>)
      requires ValidTable(table.rows) && UniquePaths(table.rows)
      modifies this`roots, table
      ensures err == Some(NotAbsolute) ==> roots == old(roots) && HoldsRelative(old(table.rows), old(roots), root)
      ensures err != Some(NotAbsolute) ==> roots == Without(old(roots), root) && (err.None? <==> root in old(roots))
      ensures err != Some(NotAbsolute) && Cleaned(old(table.rows), old(roots), root) ==>
        OnlyCoveredLive(old(table.rows), table.rows, roots, root)
      ensures err != Some(NotAbsolute) && Cleaned(old(table.rows), old(roots), root) ==>
        (Pruned(old(table.rows), table.rows, roots) <==> !RootIsLeftRow(old(table.rows), old(roots), root))
    {
      ghost var rows0, roots0 := table.rows, roots;
      var wider := WiderRoot(root);
      if wider.Some? {
        err := RemoveFromRoots(root);
        if Cleaned(rows0, roots0, root) {
          WiderKeepsAll(rows0, roots0, root, wider.value);
          ExactIffRootIsNoRow(rows0, table.rows, roots0, root);
        }
        return;
      }
      var narrower := NarrowerRoots(root);
      var trie, ok := NewPathTrie(narrower, SLASH);
      if !ok {
        return Some(NotAbsolute);
      }
      ok := DeleteUncovered(table, trie, root);
      if !ok {
        return Some(NotAbsolute);
      }
      err := RemoveFromRoots(root);
      if Cleaned(rows0, roots0, root) {
        DeletionIsExact(rows0, roots0, root, narrower, trie.Roots());
        ExactIffRootIsNoRow(rows0, table.rows, roots0, root);
      }
    }

    /**
     Any roots removed one after the other: the rows left live are exactly the rows live at the start that the
     remaining roots cover.
     */
    method RemoveRoots(removed: seq<Path>)
      requires ValidTable(table.rows) && UniquePaths(table.rows)
      requires CleanRoots(removed) && CleanRoots(roots) && BelowRoots(table.rows, roots)
      requires RowsAreNotRoots(table.rows, roots + removed)
      modifies this`roots, table
      ensures forall x :: x in roots <==> x in old(roots) && x !in removed
      ensures |table.rows| == |old(table.rows)|
      ensures forall i :: 0 <= i < |table.rows| ==> StillCovered(old(table.rows)[i], table.rows[i], roots)
    {
      ghost var rows0 := table.rows;
      for n := 0 to |removed|
        invariant ValidTable(table.rows) && UniquePaths(table.rows)
        invariant Pruned(rows0, table.rows, roots)
        invariant forall x :: x in roots <==> x in old(roots) && x !in removed[..n]
      {
        ghost var rows, kept := table.rows, roots;
        PrunedReady(rows0, old(roots), removed, rows, kept, removed[n]);
        var err := RemoveRoot(removed[n]);
        PrunedFurther(rows0, rows, kept, removed[n], table.rows);
        TakeOneMore(removed, n);
      }
      assert removed[..|removed|] == removed;
    }
  }

  /** A row lives on exactly if it was live and a root covers it. */
  ghost predicate StillCovered(r: Row, r': Row, roots: seq<Path>) {
    r' == r.(live := r.live && CoveredBy(r.path, roots, SLASH))
  }

  ghost predicate Pruned(rows0: seq<Row>, rows: seq<Row>, roots: seq<Path>) {
    |rows| == |rows0| && forall i :: 0 <= i < |rows| ==> StillCovered(rows0[i], rows[i], roots)
  }

  /** A pruned table is ready for the next removal. */
  lemma PrunedReady(rows0: seq<Row>, roots0: seq<Path>, removed: seq<Path>, rows: seq<Row>, roots: seq<Path>,
                    root: Path)
    requires CleanRoots(removed) && CleanRoots(roots0) && BelowRoots(rows0, roots0) && root in removed
    requires RowsAreNotRoots(rows0, roots0 + removed)
    requires Pruned(rows0, rows, roots) && forall x :: x in roots ==> x in roots0
    ensures Cleaned(rows, roots, root) && !HoldsRelative(rows, roots, root)
    ensures forall r :: r in rows && r.live ==> r.path != root
  {
    forall r | r in rows && r.live
      ensures Clean(r.path, SLASH) && CoveredBy(r.path, roots, SLASH) && r.path != root
    {
      var i :| 0 <= i < |rows| && rows[i] == r;
      assert StillCovered(rows0[i], rows[i], roots) && rows0[i] in rows0;
      assert root in roots0 + removed;
    }
    NothingRelative(rows, roots, root);
  }

  lemma NothingRelative(rows: seq<Row>, roots: seq<Path>, root: Path)
    requires Cleaned(rows, roots, root)
    ensures !HoldsRelative(rows, roots, root)
  {
    forall x | x in roots ensures IsAbsolute(x, SLASH) {
      CleanIsAbsolute(x);
    }
    forall r | r in rows && r.live ensures IsAbsolute(r.path, SLASH) {
      CleanIsAbsolute(r.path);
    }
  }

  lemma CleanIsAbsolute(path: Path)
    requires Clean(path, SLASH)
    ensures IsAbsolute(path, SLASH)
  {
    var a :| Names(a, SLASH) && path == Abs(a, SLASH);
    SegmentsOfClean(a, SLASH);
  }

  /** A live row is the root to be removed, which is not the top, and no other root covers it. */
  ghost predicate RootIsLeftRow(rows: seq<Row>, roots: seq<Path>, root: Path) {
    && root != [SLASH] && !CoveredBy(root, Without(roots, root), SLASH)
    && exists r :: r in rows && r.live && r.path == root
  }

  /**
   After one removal exactly the covered rows live on, if and only if no live row is the removed root left
   uncovered.
   */
  lemma ExactIffRootIsNoRow(rows: seq<Row>, rows': seq<Row>, roots: seq<Path>, root: Path)
    requires OnlyCoveredLive(rows, rows', Without(roots, root), root)
    ensures Pruned(rows, rows', Without(roots, root)) <==> !RootIsLeftRow(rows, roots, root)
  {
    var left := Without(roots, root);
    forall i | 0 <= i < |rows|
      ensures StillCovered(rows[i], rows'[i], left) <==>
        (rows[i].live && Spared(rows[i].path, root) ==> CoveredBy(rows[i].path, left, SLASH))
    {
      assert KeptIfCovered(rows[i], rows'[i], left, root);
    }
    if RootIsLeftRow(rows, roots, root) {
      var r :| r in rows && r.live && r.path == root;
      var i :| 0 <= i < |rows| && rows[i] == r;
      assert !StillCovered(rows[i], rows'[i], left);
    }
  }

  /**
   A file registered as a root and indexed stays live after the root is removed, though nothing covers it any
   more.
   */
  method RootRowStays() returns (indexer: Indexer, err: Option<RootError>)
    ensures err.None? && indexer.roots == []
    ensures indexer.table.rows == [Row(1, [SLASH, 0x66], true)] && !CoveredBy([SLASH, 0x66], indexer.roots, SLASH)
  {
    var path: Path := [SLASH, 0x66];
    var table := new FileTable;
    table.rows := [Row(1, path, true)];
    indexer := new Indexer(table);
    indexer.roots := [path];
    FileIsClean(path);
    assert PathUnder(path, path, SLASH) && path in [path] && CoveredBy(path, [path], SLASH);
    assert Cleaned(table.rows, indexer.roots, path);
    NothingRelative(table.rows, indexer.roots, path);
    ghost var rows := table.rows;
    err := indexer.RemoveRoot(path);
    assert KeptIfCovered(rows[0], table.rows[0], indexer.roots, path);
  }

  lemma FileIsClean(path: Path)
    requires path == [SLASH, 0x66]
    ensures Clean(path, SLASH)
  {
    var name: Segment := [0x66];
    var names: seq<Segment> := [name];
    assert Rooted(names[1..], SLASH) == [] && Rooted(names, SLASH) == [SLASH] + name + [];
    assert Names(names, SLASH) && path == Abs(names, SLASH);
  }

  /** Removing one more root prunes the table to what the roots then left cover. */
  lemma PrunedFurther(rows0: seq<Row>, rows: seq<Row>, roots: seq<Path>, root: Path, rows': seq<Row>)
    requires ValidTable(rows) && UniquePaths(rows) && Pruned(rows0, rows, roots)
    requires OnlyCoveredLive(rows, rows', Without(roots, root), root)
    requires forall r :: r in rows && r.live ==> r.path != root
    ensures ValidTable(rows') && UniquePaths(rows') && Pruned(rows0, rows', Without(roots, root))
  {
    forall i | 0 <= i < |rows| ensures rows'[i] == rows[i].(live := rows'[i].live) {
      assert KeptIfCovered(rows[i], rows'[i], Without(roots, root), root);
    }
    forall i | 0 <= i < |rows| ensures StillCovered(rows0[i], rows'[i], Without(roots, root)) {
      assert StillCovered(rows0[i], rows[i], roots) && rows[i] in rows;
      assert KeptIfCovered(rows[i], rows'[i], Without(roots, root), root);
      assert CoveredBy(rows[i].path, Without(roots, root), SLASH) ==> CoveredBy(rows[i].path, roots, SLASH);
    }
  }

  ghost predicate HoldsRelative(rows: seq<Row>, roots: seq<Path>, root: Path) {
    || (exists x :: x in roots && !IsAbsolute(x, SLASH))
    || (exists r :: r in rows && Matches(r, 0, root) && !IsAbsolute(r.path, SLASH))
  }

  lemma WiderKeepsAll(rows: seq<Row>, roots: seq<Path>, root: Path, other: Path)
    requires other in roots && other != root && PathUnder(root, other, SLASH)
    requires Cleaned(rows, roots, root)
    ensures OnlyCoveredLive(rows, rows, Without(roots, root), root)
  {
    forall i | 0 <= i < |rows| ensures KeptIfCovered(rows[i], rows[i], Without(roots, root), root) {
      if rows[i].live {
        assert rows[i] in rows;
        WiderRootCovers(rows[i].path, roots, root, other);
      }
    }
  }

  lemma DeletionIsExact(rows: seq<Row>, roots: seq<Path>, root: Path, narrower: seq<Path>, ends: set<seq<Segment>>)
    requires ValidTable(rows) && UniquePaths(rows) && Cleaned(rows, roots, root)
    requires forall other :: other in roots && other != root ==> !PathUnder(root, other, SLASH)
    requires Narrower(narrower, roots, root) && AllSegments(narrower, SLASH, ends)
    ensures OnlyCoveredLive(rows, SoftDeleted(rows, AllUncovered(Below(rows, root), ends)), Without(roots, root), root)
  {
    var rows' := SoftDeleted(rows, AllUncovered(Below(rows, root), ends));
    forall i | 0 <= i < |rows| ensures KeptIfCovered(rows[i], rows'[i], Without(roots, root), root) {
      if rows[i].live {
        OneRow(rows, roots, root, narrower, ends, rows[i]);
      }
    }
  }

  lemma OneRow(rows: seq<Row>, roots: seq<Path>, root: Path, narrower: seq<Path>, ends: set<seq<Segment>>, r: Row)
    requires ValidTable(rows) && UniquePaths(rows) && Cleaned(rows, roots, root) && r in rows && r.live
    requires forall other :: other in roots && other != root ==> !PathUnder(root, other, SLASH)
    requires Narrower(narrower, roots, root) && AllSegments(narrower, SLASH, ends)
    ensures r.path in AllUncovered(Below(rows, root), ends) <==>
      !(CoveredBy(r.path, Without(roots, root), SLASH) || Spared(r.path, root))
  {
    NarrowerDecides(r.path, roots, root, narrower, ends);
    DoomedRows(rows, root, ends, r);
  }

  lemma DoomedRows(rows: seq<Row>, root: Path, ends: set<seq<Segment>>, r: Row)
    requires ValidTable(rows) && UniquePaths(rows) && r in rows && r.live && root != []
    ensures r.path in AllUncovered(Below(rows, root), ends) <==> InRange(r.path, root) && !Covered(r.path, ends)
  {
    var below := Below(rows, root);
    UncoveredOrigin(below, |below|, ends, r.path);
    BelowOrigin(rows, root, r);
    forall i | 0 <= i < |below| && below[i].path == r.path ensures below[i] == r {
      BelowOrigin(rows, root, below[i]);
    }
  }
}
