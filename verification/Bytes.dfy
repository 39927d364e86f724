/** Bytes, optional values and the fixed-width encodings the wire formats use. */
module Bytes {

  type Byte = b: int | 0 <= b < 256
  type ByteString = seq<Byte>

  datatype Option<+T> = None | Some(value: T)

  /** The low `width` bytes of `n`, least significant first. */
  function LittleEndian(n: nat, width: nat): (r: ByteString)
    ensures |r| == width
  {
    if width == 0 then [] else [n % 256] + LittleEndian(n / 256, width - 1)
  }

  function BigEndian16(n: nat): (r: ByteString)
    requires n < 0x1_0000
    ensures |r| == 2 && Uint16(r) == n
  {
    [n / 256, n % 256]
  }

  function Uint16(b: ByteString): (n: nat)
    requires |b| == 2
    ensures n < 0x1_0000
  {
    (b[0] as int) * 256 + (b[1] as int)
  }

  ghost predicate AllPositive(xs: seq<nat>) {
    forall i :: 0 <= i < |xs| ==> xs[i] > 0
  }

  /** Concatenation of a list of byte strings. */
  function Concat(parts: seq<ByteString>): ByteString {
    if parts == [] then [] else parts[0] + Concat(parts[1..])
  }

  lemma {:induction false} ConcatAppend(a: seq<ByteString>, b: seq<ByteString>)
    ensures Concat(a + b) == Concat(a) + Concat(b)
  {
    if a == [] {
      assert a + b == b;
    } else {
      ConcatAppend(a[1..], b);
      TailOfAppend(a, b);
    }
  }

  lemma TailOfAppend<T>(a: seq<T>, b: seq<T>)
    requires a != []
    ensures (a + b)[0] == a[0] && (a + b)[1..] == a[1..] + b
  {
  }

  lemma TakeOneMore<T>(s: seq<T>, i: nat)
    requires i < |s|
    ensures s[..i + 1] == s[..i] + [s[i]]
    ensures s == s[..i + 1] + s[i + 1..]
  {
  }

  lemma HeadTail<T>(s: seq<T>)
    requires s != []
    ensures s == [s[0]] + s[1..]
  {
  }

  lemma Reassociate<T>(a: seq<T>, b: seq<T>, c: seq<T>)
    ensures a + (b + c) == (a + b) + c
  {
  }

  lemma ConcatSnoc(a: seq<ByteString>, x: ByteString)
    ensures Concat(a + [x]) == Concat(a) + x
  {
    ConcatAppend(a, [x]);
    assert Concat([x]) == x + Concat([]);
  }
}
