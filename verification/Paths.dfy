/** Path prefixes: the three ways the index decides that a path lies under a root. */
module Paths {
  import opened Bytes

  type Path = ByteString
  type Segment = ByteString

  const DOT: Byte := 0x2E

  /** Equal to the root or below it. */
  predicate PathUnder(path: Path, root: Path, sep: Byte) {
    path == root || root == [sep] || root + [sep] <= path
  }

  // ---------------------------------------------------------------------------------------
  // Segments of a path
  // ---------------------------------------------------------------------------------------

  function Split(s: Path, sep: Byte): (parts: seq<Segment>)
    ensures |parts| >= 1
  {
    if s == [] then [[]]
    else
      var rest := Split(s[1..], sep);
      if s[0] == sep then [[]] + rest else [[s[0]] + rest[0]] + rest[1..]
  }

  function Push(normalized: seq<Segment>, part: Segment): seq<Segment> {
    if part == [] || part == [DOT] then normalized
    else if part == [DOT, DOT] then
      if |normalized| > 0 then normalized[..|normalized| - 1] else normalized
    else normalized + [part]
  }

  function Normalize(parts: seq<Segment>): seq<Segment> {
    if parts == [] then [] else Push(Normalize(parts[..|parts| - 1]), parts[|parts| - 1])
  }

  predicate IsAbsolute(path: Path, sep: Byte) {
    |path| > 0 && path[0] == sep
  }

  function Segments(path: Path, sep: Byte): seq<Segment> {
    Normalize(Split(path, sep))
  }

  /** Splits an absolute path, dropping empty and dot segments and resolving double dots. */
  method SplitPath(path: Path, sep: Byte) returns (segments: Option<seq<Segment>>)
    ensures segments == if IsAbsolute(path, sep) then Some(Segments(path, sep)) else None
  {
    if !IsAbsolute(path, sep) {
      return None;
    }
    var parts := Split(path, sep);
    var normalized: seq<Segment> := [];
    for i := 0 to |parts|
      invariant normalized == Normalize(parts[..i])
    {
      var part := parts[i];
      TakeOneMore(parts, i);
      if part == [] || part == [DOT] {
        continue;
      }
      if part == [DOT, DOT] {
        if |normalized| > 0 {
          normalized := normalized[..|normalized| - 1];
        }
      } else {
        normalized := normalized + [part];
      }
    }
    assert parts[..|parts|] == parts;
    segments := Some(normalized);
  }

  /** The path whose parts these are. */
  function Joined(parts: seq<Segment>, sep: Byte): Path
    requires parts != []
  {
    if |parts| == 1 then parts[0] else parts[0] + [sep] + Joined(parts[1..], sep)
  }

  /** Splitting loses nothing and leaves no separator in a part. */
  lemma {:induction false} SplitJoined(s: Path, sep: Byte)
    ensures Joined(Split(s, sep), sep) == s
    ensures forall part :: part in Split(s, sep) ==> sep !in part
  {
    if s != [] {
      SplitJoined(s[1..], sep);
      var rest := Split(s[1..], sep);
      HeadTail(s);
      if s[0] == sep {
        DropFirst([], rest);
      } else {
        JoinedFirst(s[0], rest, sep);
        assert rest[0] in rest && forall part :: part in rest[1..] ==> part in rest;
      }
    }
  }

  lemma JoinedFirst(b: Byte, parts: seq<Segment>, sep: Byte)
    requires parts != []
    ensures Joined([[b] + parts[0]] + parts[1..], sep) == [b] + Joined(parts, sep)
  {
    var longer := [[b] + parts[0]] + parts[1..];
    assert longer[1..] == parts[1..];
    if |parts| > 1 {
      assert [b] + parts[0] + [sep] + Joined(parts[1..], sep) == [b] + (parts[0] + [sep] + Joined(parts[1..], sep));
    }
  }

  /** The segments so far decide what the parts to come do. */
  lemma {:induction false} NormalizeAfter(a: seq<Segment>, c: seq<Segment>, b: seq<Segment>)
    requires Normalize(a) == Normalize(c)
    ensures Normalize(a + b) == Normalize(c + b)
    decreases |b|
  {
    if b == [] {
      assert a + b == a && c + b == c;
    } else {
      var n := |b| - 1;
      NormalizeAfter(a, c, b[..n]);
      BeforeLast(a, b);
      BeforeLast(c, b);
    }
  }

  lemma BeforeLast<T>(a: seq<T>, b: seq<T>)
    requires b != []
    ensures (a + b)[..|a + b| - 1] == a + b[..|b| - 1] && (a + b)[|a + b| - 1] == b[|b| - 1]
  {
  }

  lemma NormalizeSnoc(a: seq<Segment>, x: Segment)
    ensures Normalize(a + [x]) == Push(Normalize(a), x)
  {
    assert (a + [x])[..|a|] == a;
  }

  /** A part that adds nothing where it stands changes nothing. */
  lemma PartDropped(a: seq<Segment>, x: Segment, b: seq<Segment>)
    requires Push(Normalize(a), x) == Normalize(a)
    ensures Normalize(a + [x] + b) == Normalize(a + b)
  {
    NormalizeSnoc(a, x);
    NormalizeAfter(a + [x], a, b);
  }

  /** A double dot takes back the name before it, wherever they stand. */
  lemma NameTakenBack(a: seq<Segment>, b: seq<Segment>, x: Segment, sep: Byte)
    requires Name(x, sep)
    ensures Normalize(a + [x] + [[DOT, DOT]] + b) == Normalize(a + b)
  {
    NormalizeSnoc(a, x);
    NormalizeSnoc(a + [x], [DOT, DOT]);
    assert (Normalize(a) + [x])[..|Normalize(a)|] == Normalize(a);
    NormalizeAfter(a + [x] + [[DOT, DOT]], a, b);
  }

  /** Wherever they stand, empty and dot parts change nothing, and neither does a double dot at the root. */
  lemma NothingKept(a: seq<Segment>, b: seq<Segment>)
    ensures Normalize(a + [[]] + b) == Normalize(a + b)
    ensures Normalize(a + [[DOT]] + b) == Normalize(a + b)
    ensures Normalize([[DOT, DOT]] + b) == Normalize(b)
  {
    PartDropped(a, [], b);
    PartDropped(a, [DOT], b);
    PartDropped([], [DOT, DOT], b);
    assert [] + [[DOT, DOT]] == [[DOT, DOT]] && [] + b == b;
  }

  // ---------------------------------------------------------------------------------------
  // Clean absolute paths
  // ---------------------------------------------------------------------------------------

  predicate Name(x: Segment, sep: Byte) {
    x != [] && x != [DOT] && x != [DOT, DOT] && sep !in x
  }

  predicate Names(xs: seq<Segment>, sep: Byte) {
    forall x :: x in xs ==> Name(x, sep)
  }

  function Rooted(xs: seq<Segment>, sep: Byte): Path {
    if xs == [] then [] else [sep] + xs[0] + Rooted(xs[1..], sep)
  }

  /** The clean absolute path with these segments. */
  function Abs(xs: seq<Segment>, sep: Byte): Path {
    if xs == [] then [sep] else Rooted(xs, sep)
  }

  ghost predicate Clean(path: Path, sep: Byte) {
    exists xs :: Names(xs, sep) && path == Abs(xs, sep)
  }

  lemma {:induction false} SplitName(x: Segment, rest: Path, sep: Byte)
    requires sep !in x && (rest == [] || rest[0] == sep)
    ensures Split(x + rest, sep) == [x] + Split(rest, sep)[1..]
    decreases |x|
  {
    if x == [] {
      assert x + rest == rest;
      if rest != [] {
        assert Split(rest, sep) == [[]] + Split(rest[1..], sep);
      }
    } else {
      assert (x + rest)[1..] == x[1..] + rest && sep !in x[1..];
      SplitName(x[1..], rest, sep);
      assert [x[0]] + x[1..] == x;
    }
  }

  /** Splitting a clean path gives an empty part, then its segments. */
  lemma {:induction false} SplitRooted(xs: seq<Segment>, sep: Byte)
    requires Names(xs, sep)
    ensures Split(Rooted(xs, sep), sep) == [[]] + xs
    decreases |xs|
  {
    if xs != [] {
      var rest := Rooted(xs[1..], sep);
      NamesTail(xs, sep);
      SplitRooted(xs[1..], sep);
      SplitName(xs[0], rest, sep);
      var p := Rooted(xs, sep);
      assert p[0] == sep && p[1..] == xs[0] + rest;
      HeadTail(xs);
      DropFirst([], xs[1..]);
    }
  }

  lemma DropFirst<T>(x: T, xs: seq<T>)
    ensures ([x] + xs)[1..] == xs
  {
  }

  lemma {:induction false} NormalizeNames(xs: seq<Segment>, sep: Byte)
    requires Names(xs, sep)
    ensures Normalize([[]] + xs) == xs
    decreases |xs|
  {
    if xs == [] {
      assert ([[]] + xs)[..0] == [] && ([[]] + xs)[0] == [];
      assert Normalize([]) == [];
      assert [[]] + xs == [[]];
    } else {
      var n := |xs| - 1;
      assert Names(xs[..n], sep) by { assert forall x :: x in xs[..n] ==> x in xs; }
      NormalizeNames(xs[..n], sep);
      TakeOneMore(xs, n);
      PrefixOfCons([], xs, n);
      assert xs[n] in xs && xs[..n + 1] == xs;
    }
  }

  lemma PrefixOfCons<T>(x: T, xs: seq<T>, n: nat)
    requires n < |xs|
    ensures ([x] + xs)[..n + 1] == [x] + xs[..n] && ([x] + xs)[n + 1] == xs[n]
  {
  }

  /** The segments of a clean path are the names it was built from. */
  lemma SegmentsOfClean(xs: seq<Segment>, sep: Byte)
    requires Names(xs, sep)
    ensures IsAbsolute(Abs(xs, sep), sep) && Segments(Abs(xs, sep), sep) == xs
  {
    if xs == [] {
      var one: seq<Segment>, two: seq<Segment> := [[]], [[], []];
      assert [sep][1..] == [] && Split([], sep) == one;
      assert Split([sep], sep) == two;
      assert two[..1] == one && one[..0] == [];
      assert Normalize(one) == Push(Normalize([]), []) == [];
    } else {
      SplitRooted(xs, sep);
      NormalizeNames(xs, sep);
    }
  }

  // ---------------------------------------------------------------------------------------
  // Under, by segments
  // ---------------------------------------------------------------------------------------

  /** Of two words each ended by a separator or the end, one starts the other only if they are equal. */
  lemma FirstSegment(x: Segment, u: Path, y: Segment, v: Path, sep: Byte)
    requires sep !in x && sep !in y
    requires u != [] && u[0] == sep && (v == [] || v[0] == sep)
    ensures x + u <= y + v <==> x == y && u <= v
  {
    if x + u <= y + v {
      assert (x + u)[|x|] == sep && (y + v)[|x|] == sep;
      assert |y| <= |x|;
      assert (x + u)[|y|] == (y + v)[|y|] == sep;
      assert |x| == |y|;
      assert x == (x + u)[..|x|] == (y + v)[..|x|] == y;
      assert u == (x + u)[|x|..] && v == (y + v)[|x|..];
    }
  }

  lemma RootedCons(xs: seq<Segment>, sep: Byte)
    requires xs != []
    ensures Rooted(xs, sep) == [sep] + (xs[0] + Rooted(xs[1..], sep))
    ensures Rooted(xs, sep) + [sep] == [sep] + (xs[0] + (Rooted(xs[1..], sep) + [sep]))
    ensures Rooted(xs, sep)[0] == sep
  {
  }

  lemma NamesTail(xs: seq<Segment>, sep: Byte)
    requires Names(xs, sep) && xs != []
    ensures Names(xs[1..], sep) && Name(xs[0], sep)
  {
    assert xs[0] in xs && forall x :: x in xs[1..] ==> x in xs;
  }

  /** A rooted path plus a separator is a prefix exactly of the paths with further segments. */
  lemma {:induction false} RootedPrefix(b: seq<Segment>, a: seq<Segment>, sep: Byte)
    requires Names(a, sep) && Names(b, sep)
    ensures Rooted(b, sep) + [sep] <= Rooted(a, sep) <==> b < a
    decreases |b|
  {
    if b == [] {
      if a != [] { RootedCons(a, sep); }
      assert [] + [sep] == [sep];
    } else if a != [] {
      NamesTail(a, sep);
      NamesTail(b, sep);
      RootedPrefix(b[1..], a[1..], sep);
      var u, v := Rooted(b[1..], sep) + [sep], Rooted(a[1..], sep);
      RootedCons(b, sep);
      RootedCons(a, sep);
      PrefixCons(sep, b[0] + u, a[0] + v);
      assert u[0] == sep by { if b[1..] != [] { RootedCons(b[1..], sep); } }
      assert v == [] || v[0] == sep by { if a[1..] != [] { RootedCons(a[1..], sep); } }
      FirstSegment(b[0], u, a[0], v, sep);
      PrefixTail(b, a);
    }
  }

  lemma PrefixCons<T>(x: T, s: seq<T>, t: seq<T>)
    ensures [x] + s <= [x] + t <==> s <= t
  {
    if [x] + s <= [x] + t {
      assert s == ([x] + s)[1..] && t == ([x] + t)[1..];
    }
  }

  lemma PrefixTail<T>(b: seq<T>, a: seq<T>)
    requires a != [] && b != []
    ensures b < a <==> b[0] == a[0] && b[1..] < a[1..]
  {
    if b[0] == a[0] && b[1..] < a[1..] {
      assert b == [b[0]] + b[1..] && a == [a[0]] + a[1..];
    }
  }

  /** On clean absolute paths, under means that the root's segments start the path's segments. */
  lemma UnderIsPrefix(a: seq<Segment>, b: seq<Segment>, sep: Byte)
    requires Names(a, sep) && Names(b, sep)
    ensures PathUnder(Abs(a, sep), Abs(b, sep), sep) <==> b <= a
    ensures Abs(a, sep) == Abs(b, sep) <==> a == b
  {
    SegmentsOfClean(a, sep);
    SegmentsOfClean(b, sep);
    if b != [] {
      RootedPrefix(b, a, sep);
      assert |Rooted(b, sep)| >= 2 by { assert b[0] in b; }
      assert a == [] ==> !(Rooted(b, sep) + [sep] <= [sep]);
    }
    PrefixOrEqual(b, a);
  }

  lemma PrefixOrEqual<T>(b: seq<T>, a: seq<T>)
    ensures b <= a <==> b == a || b < a
  {
    if b <= a && |b| == |a| {
      assert b == a[..|b|] == a;
    }
  }

  // ---------------------------------------------------------------------------------------
  // Widest roots
  // ---------------------------------------------------------------------------------------

  ghost predicate CoveredBy(path: Path, roots: seq<Path>, sep: Byte) {
    exists r :: r in roots && PathUnder(path, r, sep)
  }

  predicate UnderOther(root: Path, roots: seq<Path>, sep: Byte) {
    exists o :: o in roots && o != root && PathUnder(root, o, sep)
  }

  method WidestRoots(roots: seq<Path>, sep: Byte) returns (widest: seq<Path>)
    ensures forall r :: r in widest <==> r in roots && !UnderOther(r, roots, sep)
  {
    widest := [];
    for i := 0 to |roots|
      invariant forall r :: r in widest <==> r in roots[..i] && !UnderOther(r, roots, sep)
    {
      var underOther := false;
      for j := 0 to |roots|
        invariant underOther <==> exists k :: 0 <= k < j && roots[k] != roots[i] && PathUnder(roots[i], roots[k], sep)
      {
        if roots[i] != roots[j] && PathUnder(roots[i], roots[j], sep) {
          underOther := true;
          break;
        }
      }
      if !underOther {
        widest := widest + [roots[i]];
      }
    }
  }

  lemma UnderTransitive(p: Path, q: Path, r: Path, sep: Byte)
    requires Clean(p, sep) && Clean(q, sep) && Clean(r, sep)
    requires PathUnder(p, q, sep) && PathUnder(q, r, sep)
    ensures PathUnder(p, r, sep)
    ensures q != r ==> |r| < |q|
  {
    var a :| Names(a, sep) && p == Abs(a, sep);
    var b :| Names(b, sep) && q == Abs(b, sep);
    var c :| Names(c, sep) && r == Abs(c, sep);
    UnderIsPrefix(a, b, sep);
    UnderIsPrefix(b, c, sep);
    UnderIsPrefix(a, c, sep);
    if q != r && c == [] {
      assert b[0] in b;
      assert |Rooted(b, sep)| >= 2;
    }
  }

  /** A clean root lies under some widest root. */
  lemma {:induction false} WidestAbove(root: Path, roots: seq<Path>, sep: Byte) returns (w: Path)
    requires root in roots && forall r :: r in roots ==> Clean(r, sep)
    ensures w in roots && !UnderOther(w, roots, sep) && PathUnder(root, w, sep)
    decreases |root|
  {
    if o :| o in roots && o != root && PathUnder(root, o, sep) {
      UnderTransitive(root, root, o, sep);
      w := WidestAbove(o, roots, sep);
      UnderTransitive(root, o, w, sep);
    } else {
      w := root;
    }
  }

  /** Scanning only the widest roots misses nothing that any root covers. */
  lemma WidestCoverSame(path: Path, roots: seq<Path>, widest: seq<Path>, sep: Byte)
    requires Clean(path, sep) && forall r :: r in roots ==> Clean(r, sep)
    requires forall r :: r in widest <==> r in roots && !UnderOther(r, roots, sep)
    ensures CoveredBy(path, widest, sep) <==> CoveredBy(path, roots, sep)
  {
    if r :| r in roots && PathUnder(path, r, sep) {
      var w := WidestAbove(r, roots, sep);
      UnderTransitive(path, r, w, sep);
    }
  }
}
