/** A trie of keys on the heap. */
module Trie {
  import opened Bytes

  class Node<K(!new, ==)> {
    var children: map<K, Node<K>>
    /** This node ends an inserted list; everything below it is covered. */
    var isEnd: bool

    constructor ()
      ensures children == map[] && !isEnd
    {
      children, isEnd := map[], false;
    }
  }

  class Trie<K(!new, ==)> {
    const root: Node<K>
    /** The node of every key list that has one, all nodes, and the inserted lists. */
    ghost var at: map<seq<K>, Node<K>>
    ghost var repr: set<Node<K>>
    ghost var ends: set<seq<K>>

    ghost predicate Valid()
      reads this, repr
    {
      && [] in at && at[[]] == root
      && PrefixClosed(at) && Injective(at)
      && (forall p :: p in at ==> at[p] in repr)
      && (forall p :: p in at ==> Linked(p))
      && ends <= at.Keys
    }

    /** The node at `p` links to exactly the lists one key longer, and marks whether `p` was inserted. */
    ghost predicate Linked(p: seq<K>)
      requires p in at && at[p] in repr
      reads this, repr
    {
      (at[p].isEnd <==> p in ends) && LinksOf(at[p].children, at, p)
    }

    constructor ()
      ensures Valid() && fresh(repr) && ends == {}
    {
      root := new Node<K>();
      at := map[[] := root];
      repr := {root};
      ends := {};
    }

    /** The child of the node at `p`, created when it is missing. */
    method Child(ghost p: seq<K>, node: Node<K>, key: K) returns (child: Node<K>)
      requires Valid() && p in at && at[p] == node
      modifies this`at, this`repr, node`children
      ensures Valid() && p + [key] in at && at[p + [key]] == child
      ensures fresh(repr - old(repr))
    {
      assert Linked(p);
      if key in node.children {
        child := node.children[key];
        return;
      }
      child := new Node<K>();
      ghost var q, at0 := p + [key], at;
      NewKeeps(at, p, key, child);
      LinksNew(at, p, key, child);
      LinksGrow(node.children, at, p, key, child);
      node.children := node.children[key := child];
      at, repr := at[q := child], repr + {child};
      forall r | r in at ensures Linked(r) {
        if r != q && r != p {
          assert old(Linked(r));
          LinksKept(at[r].children, at0, p, key, child, r);
        }
      }
    }

    method Add(parts: seq<K>)
      requires Valid()
      modifies this, repr
      ensures Valid() && fresh(repr - old(repr))
      ensures ends == old(ends) + {parts}
    {
      var node := root;
      for i := 0 to |parts|
        invariant Valid() && fresh(repr - old(repr)) && ends == old(ends)
        invariant parts[..i] in at && at[parts[..i]] == node
      {
        TakeOneMore(parts, i);
        node := Child(parts[..i], node, parts[i]);
      }
      assert parts[..|parts|] == parts;
      node.isEnd := true;
      ends := ends + {parts};
      forall r | r in at ensures Linked(r) {
        assert r != parts ==> at[r] != node;
      }
    }

    /** Whether some inserted list starts `parts`. */
    method Covers(parts: seq<K>) returns (covered: bool)
      requires Valid()
      ensures covered <==> exists e :: e in ends && e <= parts
    {
      var node := root;
      for i := 0 to |parts|
        invariant parts[..i] in at && at[parts[..i]] == node
        invariant forall e :: e in ends && e <= parts ==> i <= |e|
      {
        assert Linked(parts[..i]);
        if node.isEnd {
          assert parts[..i] in ends && parts[..i] <= parts;
          return true;
        }
        TakeOneMore(parts, i);
        NotHere(parts, i);
        if parts[i] !in node.children {
          NothingBelow(parts, i);
          return false;
        }
        node := node.children[parts[i]];
      }
      assert parts[..|parts|] == parts;
      assert Linked(parts);
      if node.isEnd {
        assert parts in ends && parts <= parts;
      } else {
        NotHere(parts, |parts|);
      }
      covered := node.isEnd;
    }

    lemma NotHere(parts: seq<K>, i: nat)
      requires Valid() && i <= |parts| && parts[..i] in at && !at[parts[..i]].isEnd
      requires forall e :: e in ends && e <= parts ==> i <= |e|
      ensures forall e :: e in ends && e <= parts ==> i + 1 <= |e|
    {
      assert Linked(parts[..i]);
      forall e | e in ends && e <= parts ensures |e| != i {
        assert e == parts[..|e|];
      }
    }

    lemma NothingBelow(parts: seq<K>, i: nat)
      requires Valid() && i < |parts| && parts[..i] in at && parts[i] !in at[parts[..i]].children
      requires forall e :: e in ends && e <= parts ==> i + 1 <= |e|
      ensures forall e :: e in ends ==> !(e <= parts)
    {
      assert Linked(parts[..i]);
      TakeOneMore(parts, i);
      forall e | e in ends && i + 1 <= |e| ensures !(e <= parts) {
        assert e[..i + 1] in at && e[..i + 1] != parts[..i + 1];
      }
    }
  }

  ghost predicate Injective<A, B>(m: map<A, B>) {
    forall p, q :: p in m && q in m && p != q ==> m[p] != m[q]
  }

  ghost predicate PrefixClosed<A, B>(m: map<seq<A>, B>) {
    forall p, k :: p in m && 0 <= k <= |p| ==> p[..k] in m
  }

  lemma LastSplits<A>(r: seq<A>, x: A, p: seq<A>, y: A)
    requires r + [x] == p + [y]
    ensures r == p && x == y
  {
    assert |r| == |p| && r == (r + [x])[..|r|] && p == (p + [y])[..|p|];
    assert (r + [x])[|r|] == x;
  }

  /** A node at `p` links to exactly the lists one key longer. */
  ghost predicate LinksOf<A(!new), B>(children: map<A, B>, at: map<seq<A>, B>, p: seq<A>) {
    && (forall x :: x in children <==> p + [x] in at)
    && (forall x :: x in children ==> children[x] == at[p + [x]])
  }

  lemma LinksKept<A(!new), B>(children: map<A, B>, at: map<seq<A>, B>, p: seq<A>, key: A, child: B, r: seq<A>)
    requires LinksOf(children, at, r) && r != p
    ensures LinksOf(children, at[p + [key] := child], r)
  {
    forall x ensures r + [x] != p + [key] {
      if r + [x] == p + [key] { LastSplits(r, x, p, key); }
    }
  }

  lemma LinksGrow<A(!new), B>(children: map<A, B>, at: map<seq<A>, B>, p: seq<A>, key: A, child: B)
    requires LinksOf(children, at, p)
    ensures LinksOf(children[key := child], at[p + [key] := child], p)
  {
    forall x | x != key ensures p + [x] != p + [key] {
      if p + [x] == p + [key] { LastSplits(p, x, p, key); }
    }
  }

  lemma LinksNew<A(!new), B>(at: map<seq<A>, B>, p: seq<A>, key: A, child: B)
    requires PrefixClosed(at) && p + [key] !in at
    ensures LinksOf(map[], at[p + [key] := child], p + [key])
  {
    var q := p + [key];
    forall x ensures q + [x] !in at {
      assert (q + [x])[..|q|] == q;
    }
  }

  lemma NewKeeps<A, B>(m: map<seq<A>, B>, p: seq<A>, x: A, b: B)
    requires p in m && PrefixClosed(m)
    ensures PrefixClosed(m[p + [x] := b])
  {
    var m' := m[p + [x] := b];
    forall k | 0 <= k <= |p| + 1 ensures (p + [x])[..k] in m' {
      if k <= |p| {
        assert (p + [x])[..k] == p[..k];
      } else {
        assert (p + [x])[..k] == p + [x];
      }
    }
  }
}

/** Coverage of paths by roots: the path trie and the key range, against `PathUnder`. */
module Coverage {
  import opened Bytes
  import opened Paths
  import opened Trie

  class PathTrie {
    const sep: Byte
    const nodes: Trie<Segment>
    /** Set when the top itself is inserted. */
    var coversAll: bool

    ghost predicate Valid()
      reads this, nodes, nodes.repr
    {
      nodes.Valid()
    }

    /** The segment lists of the inserted roots. */
    ghost function Roots(): set<seq<Segment>>
      reads this, nodes
    {
      nodes.ends + if coversAll then {[]} else {}
    }

    constructor (sep: Byte)
      ensures Valid() && fresh(nodes) && fresh(nodes.repr) && this.sep == sep && Roots() == {}
    {
      this.sep := sep;
      coversAll := false;
      nodes := new Trie<Segment>();
    }

    method Insert(path: Path) returns (ok: bool)
      requires Valid()
      modifies this, nodes, nodes.repr
      ensures Valid() && fresh(nodes.repr - old(nodes.repr))
      ensures ok <==> IsAbsolute(path, sep)
      ensures Roots() == if ok then old(Roots()) + {Segments(path, sep)} else old(Roots())
    {
      var parts := SplitPath(path, sep);
      if parts.None? {
        return false;
      }
      if |parts.value| == 0 {
        coversAll := true;
        return true;
      }
      nodes.Add(parts.value);
      ok := true;
    }

    method Covers(path: Path) returns (covered: Option<bool>)
      requires Valid()
      ensures covered.None? <==> !IsAbsolute(path, sep)
      ensures covered.Some? ==> (covered.value <==> exists e :: e in Roots() && e <= Segments(path, sep))
    {
      var parts := SplitPath(path, sep);
      if parts.None? {
        return None;
      }
      if coversAll {
        assert [] in Roots() && [] <= parts.value;
        return Some(true);
      }
      var found := nodes.Covers(parts.value);
      assert Roots() == nodes.ends;
      covered := Some(found);
    }
  }

  ghost predicate AllSegments(paths: seq<Path>, sep: Byte, roots: set<seq<Segment>>) {
    forall e :: e in roots <==> exists p :: p in paths && Segments(p, sep) == e
  }

  method NewPathTrie(paths: seq<Path>, sep: Byte) returns (trie: PathTrie, ok: bool)
    ensures ok <==> forall p :: p in paths ==> IsAbsolute(p, sep)
    ensures trie.Valid() && fresh(trie) && fresh(trie.nodes) && fresh(trie.nodes.repr) && trie.sep == sep
    ensures ok ==> AllSegments(paths, sep, trie.Roots())
  {
    trie := new PathTrie(sep);
    for i := 0 to |paths|
      invariant trie.Valid() && fresh(trie.nodes.repr)
      invariant forall p :: p in paths[..i] ==> IsAbsolute(p, sep)
      invariant AllSegments(paths[..i], sep, trie.Roots())
    {
      ghost var before := trie.Roots();
      ok := trie.Insert(paths[i]);
      if !ok {
        assert paths[i] in paths;
        return;
      }
      TakeOneMore(paths, i);
      OneMoreRoot(paths[..i], paths[i], sep, before);
    }
    assert paths[..|paths|] == paths;
    ok := true;
  }

  lemma OneMoreRoot(paths: seq<Path>, p: Path, sep: Byte, roots: set<seq<Segment>>)
    requires AllSegments(paths, sep, roots)
    ensures AllSegments(paths + [p], sep, roots + {Segments(p, sep)})
  {
    assert p in paths + [p];
    forall q | q in paths ensures q in paths + [p] {
    }
  }

  /** For clean absolute roots and paths, the trie covers a path exactly when some root has it under it. */
  lemma TrieIsPathUnder(path: Path, roots: seq<Path>, sep: Byte, ends: set<seq<Segment>>)
    requires Clean(path, sep) && forall r :: r in roots ==> Clean(r, sep)
    requires AllSegments(roots, sep, ends)
    ensures (exists e :: e in ends && e <= Segments(path, sep)) <==> CoveredBy(path, roots, sep)
  {
    var a :| Names(a, sep) && path == Abs(a, sep);
    SegmentsOfClean(a, sep);
    if e :| e in ends && e <= a {
      var r :| r in roots && Segments(r, sep) == e;
      var b :| Names(b, sep) && r == Abs(b, sep);
      SegmentsOfClean(b, sep);
      UnderIsPrefix(a, b, sep);
    }
    if r :| r in roots && PathUnder(path, r, sep) {
      var b :| Names(b, sep) && r == Abs(b, sep);
      SegmentsOfClean(b, sep);
      UnderIsPrefix(a, b, sep);
      assert b in ends;
    }
  }

  // ---------------------------------------------------------------------------------------
  // The key range of a subtree
  // ---------------------------------------------------------------------------------------

  const SLASH: Byte := 0x2F
  const ZERO: Byte := 0x30

  /** Byte order, as the database compares keys. */
  predicate Before(a: ByteString, b: ByteString) {
    if b == [] then false
    else if a == [] then true
    else a[0] < b[0] || (a[0] == b[0] && Before(a[1..], b[1..]))
  }

  function TrimRight(s: Path): (r: Path)
    ensures r <= s && (r == [] || r[|r| - 1] != SLASH) && forall i :: |r| <= i < |s| ==> s[i] == SLASH
  {
    if s != [] && s[|s| - 1] == SLASH then TrimRight(s[..|s| - 1]) else s
  }

  function RangeLow(prefix: Path): Path {
    TrimRight(prefix) + [SLASH]
  }

  function RangeHigh(prefix: Path): Path {
    TrimRight(prefix) + [ZERO]
  }

  predicate InRange(path: Path, prefix: Path) {
    !Before(path, RangeLow(prefix)) && Before(path, RangeHigh(prefix))
  }

  /** The comparison with a one-byte key. */
  lemma BeforeOne(s: ByteString, b: Byte)
    ensures Before(s, [b]) <==> s == [] || s[0] < b
  {
    if s != [] {
      assert [b][1..] == [];
    }
  }

  /** The comparison with a key that starts with the same or another byte. */
  lemma BeforeCons(x: Byte, s: ByteString, y: Byte, t: ByteString)
    ensures Before([x] + s, [y] + t) <==> x < y || (x == y && Before(s, t))
  {
    assert ([x] + s)[1..] == s && ([y] + t)[1..] == t;
  }

  lemma {:induction false} RangeOf(s: ByteString, t: ByteString)
    ensures !Before(s, t + [SLASH]) && Before(s, t + [ZERO]) <==> t + [SLASH] <= s
    decreases |t|
  {
    if t == [] {
      assert t + [SLASH] == [SLASH] && t + [ZERO] == [ZERO];
      BeforeOne(s, SLASH);
      BeforeOne(s, ZERO);
    } else if s == [] {
      assert Before(s, t + [SLASH]);
    } else {
      var x, s', y, t' := s[0], s[1..], t[0], t[1..];
      HeadTail(s);
      ConsAppend(t, SLASH);
      ConsAppend(t, ZERO);
      BeforeCons(x, s', y, t' + [SLASH]);
      BeforeCons(x, s', y, t' + [ZERO]);
      RangeOf(s', t');
      if x == y {
        PrefixCons(x, t' + [SLASH], s');
      }
    }
  }

  lemma ConsAppend(t: ByteString, b: Byte)
    requires t != []
    ensures t + [b] == [t[0]] + (t[1..] + [b])
  {
  }

  /** The range holds exactly the keys that begin with the trimmed root and a separator. */
  lemma RangeIsPrefix(path: Path, prefix: Path)
    ensures InRange(path, prefix) <==> TrimRight(prefix) + [SLASH] <= path
  {
    RangeOf(path, TrimRight(prefix));
  }

  lemma {:induction false} RootedEnds(xs: seq<Segment>)
    requires Names(xs, SLASH) && xs != []
    ensures var p := Rooted(xs, SLASH); |p| >= 2 && p[|p| - 1] != SLASH
    decreases |xs|
  {
    NamesTail(xs, SLASH);
    if |xs| > 1 {
      RootedEnds(xs[1..]);
    } else {
      assert Rooted(xs[1..], SLASH) == [];
      assert xs[0][|xs[0]| - 1] in xs[0];
    }
  }

  lemma {:induction false} TrimmedAlready(s: Path)
    requires s != [] && s[|s| - 1] != SLASH
    ensures TrimRight(s) == s
  {
  }

  lemma TopTrimmed()
    ensures TrimRight([SLASH]) == []
  {
    assert [SLASH][..0] == [];
  }

  /** For a clean absolute root the range holds exactly the clean paths strictly under it; for the top, all of them. */
  lemma RangeIsStrictlyUnder(path: Path, root: Path)
    requires Clean(path, SLASH) && Clean(root, SLASH)
    ensures InRange(path, root) <==> PathUnder(path, root, SLASH) && (path != root || root == [SLASH])
  {
    var a :| Names(a, SLASH) && path == Abs(a, SLASH);
    var b :| Names(b, SLASH) && root == Abs(b, SLASH);
    RangeIsPrefix(path, root);
    if b == [] {
      TopTrimmed();
      SegmentsOfClean(a, SLASH);
      assert [] + [SLASH] == [SLASH];
    } else {
      RootedEnds(b);
      TrimmedAlready(root);
    }
  }
}
