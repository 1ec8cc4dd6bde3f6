/** Byte strings, their lexicographic order and big-endian integers: the vocabulary shared by
    every digest input, file projection and packet format of the package manager. */
module Bytes {

  type Byte = x: int | 0 <= x < 256

  datatype Ordering = Less | Equal | Greater {
    /** The ordering seen with the two operands exchanged. */
    function Reversed(): Ordering {
      match this
      case Less => Greater
      case Equal => Equal
      case Greater => Less
    }
  }

  datatype Option<+T> = None | Some(value: T)

  datatype Result<+T, +E> = Ok(value: T) | Err(error: E)

  /** Comparison of two integers. */
  function CompareInt(a: int, b: int): Ordering {
    if a < b then Less else if a > b then Greater else Equal
  }

  /** Lexicographic comparison of two byte strings, a proper prefix being smaller. */
  function CompareBytes(a: seq<Byte>, b: seq<Byte>): Ordering {
    if a == [] || b == [] then CompareInt(|a|, |b|)
    else if a[0] != b[0] then CompareInt(a[0], b[0])
    else CompareBytes(a[1..], b[1..])
  }

  lemma {:induction false} CompareBytesEqual(a: seq<Byte>, b: seq<Byte>)
    ensures CompareBytes(a, b) == Equal <==> a == b
  {
    if a != [] && b != [] && a[0] == b[0] {
      CompareBytesEqual(a[1..], b[1..]);
      assert a == [a[0]] + a[1..] && b == [b[0]] + b[1..];
    }
  }

  lemma {:induction false} CompareBytesReversed(a: seq<Byte>, b: seq<Byte>)
    ensures CompareBytes(b, a) == CompareBytes(a, b).Reversed()
  {
    if a != [] && b != [] && a[0] == b[0] {
      CompareBytesReversed(a[1..], b[1..]);
    }
  }

  lemma {:induction false} CompareBytesTransitive(a: seq<Byte>, b: seq<Byte>, c: seq<Byte>)
    requires CompareBytes(a, b) != Greater && CompareBytes(b, c) != Greater
    ensures CompareBytes(a, c) != Greater
    ensures CompareBytes(a, b) == Less || CompareBytes(b, c) == Less ==> CompareBytes(a, c) == Less
  {
    if a != [] && b != [] && c != [] && a[0] == b[0] && b[0] == c[0] {
      CompareBytesTransitive(a[1..], b[1..], c[1..]);
    }
  }

  /** Fixed-width fields compare one after the other. */
  lemma {:induction false} CompareBytesConcat(p: seq<Byte>, q: seq<Byte>, x: seq<Byte>, y: seq<Byte>)
    requires |p| == |q|
    ensures CompareBytes(p + x, q + y) ==
            if CompareBytes(p, q) != Equal then CompareBytes(p, q) else CompareBytes(x, y)
  {
    if p == [] {
      assert p + x == x && q + y == y;
    } else {
      assert (p + x)[1..] == p[1..] + x && (q + y)[1..] == q[1..] + y;
      if p[0] == q[0] {
        CompareBytesConcat(p[1..], q[1..], x, y);
      }
    }
  }

  function Pow256(width: nat): (r: nat)
    ensures r > 0
  {
    if width == 0 then 1 else 256 * Pow256(width - 1)
  }

  /** The `to_be_bytes` image of an unsigned integer of `width` bytes. */
  function BigEndian(value: nat, width: nat): (r: seq<Byte>)
    ensures |r| == width
  {
    if width == 0 then [] else BigEndian(value / 256, width - 1) + [value % 256]
  }

  /** The `from_be_bytes` reading of a byte string. */
  function FromBigEndian(bytes: seq<Byte>): nat {
    if bytes == [] then 0
    else FromBigEndian(bytes[..|bytes| - 1]) * 256 + bytes[|bytes| - 1]
  }

  lemma {:induction false} BigEndianRoundTrip(value: nat, width: nat)
    requires value < Pow256(width)
    ensures FromBigEndian(BigEndian(value, width)) == value
  {
    if width > 0 {
      BigEndianRoundTrip(value / 256, width - 1);
      var r := BigEndian(value, width);
      assert r[..|r| - 1] == BigEndian(value / 256, width - 1);
    }
  }

  lemma {:induction false} FromBigEndianRoundTrip(bytes: seq<Byte>)
    ensures FromBigEndian(bytes) < Pow256(|bytes|)
    ensures BigEndian(FromBigEndian(bytes), |bytes|) == bytes
  {
    if bytes != [] {
      FromBigEndianRoundTrip(bytes[..|bytes| - 1]);
      assert bytes == bytes[..|bytes| - 1] + [bytes[|bytes| - 1]];
    }
  }

  lemma BigEndianInjective(a: nat, b: nat, width: nat)
    requires a < Pow256(width) && b < Pow256(width)
    requires BigEndian(a, width) == BigEndian(b, width)
    ensures a == b
  {
    BigEndianRoundTrip(a, width);
    BigEndianRoundTrip(b, width);
  }

  /** Big-endian integers of one width compare as byte strings exactly as they compare as numbers. */
  lemma {:induction false} BigEndianOrder(a: nat, b: nat, width: nat)
    requires a < Pow256(width) && b < Pow256(width)
    ensures CompareBytes(BigEndian(a, width), BigEndian(b, width)) == CompareInt(a, b)
  {
    if width > 0 {
      BigEndianOrder(a / 256, b / 256, width - 1);
      CompareBytesConcat(BigEndian(a / 256, width - 1), BigEndian(b / 256, width - 1), [a % 256], [b % 256]);
      assert CompareBytes([a % 256], [b % 256]) == CompareInt(a % 256, b % 256);
    }
  }

  lemma Pow256Values()
    ensures Pow256(4) == 0x1_0000_0000 && Pow256(8) == 0x1_0000_0000_0000_0000
  {
    assert Pow256(1) == 256;
    assert Pow256(2) == 0x1_0000;
    assert Pow256(3) == 0x100_0000;
    assert Pow256(4) == 0x1_0000_0000;
    assert Pow256(5) == 0x100_0000_0000;
    assert Pow256(6) == 0x1_0000_0000_0000;
    assert Pow256(7) == 0x100_0000_0000_0000;
  }
}
