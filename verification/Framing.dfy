/** Length-framed fields and the peeling lemmas that make a sequence of them uniquely readable. */
module Framing {
  import opened Bytes

  /** ASCII text as the bytes it is made of. */
  function Ascii(text: string): (r: seq<Byte>)
    ensures |r| == |text|
  {
    seq(|text|, i requires 0 <= i < |text| => text[i] as int % 256)
  }

  predicate Fits(bytes: seq<Byte>) { |bytes| < 0x1_0000_0000_0000_0000 }

  function U64(value: nat): (r: seq<Byte>)
    ensures |r| == 8
  {
    BigEndian(value, 8)
  }

  predicate IsI32(value: int) { -0x8000_0000 <= value < 0x8000_0000 }

  predicate IsU64(value: int) { 0 <= value < 0x1_0000_0000_0000_0000 }

  /** Two's complement big-endian image of a 32-bit integer. */
  function I32(value: int): (r: seq<Byte>)
    ensures |r| == 4
  {
    BigEndian(value % 0x1_0000_0000, 4)
  }

  /** A length followed by that many bytes. */
  function Prefixed(bytes: seq<Byte>): seq<Byte> { U64(|bytes|) + bytes }

  /** A named frame. */
  function Frame(name: seq<Byte>, bytes: seq<Byte>): seq<Byte> { Prefixed(name) + Prefixed(bytes) }

  lemma U64Injective(a: nat, b: nat)
    requires IsU64(a) && IsU64(b) && U64(a) == U64(b)
    ensures a == b
  {
    Pow256Values();
    BigEndianInjective(a, b, 8);
  }

  lemma I32Injective(a: int, b: int)
    requires IsI32(a) && IsI32(b) && I32(a) == I32(b)
    ensures a == b
  {
    Pow256Values();
    BigEndianInjective(a % 0x1_0000_0000, b % 0x1_0000_0000, 4);
  }

  /** A small number starts with a zero byte. */
  lemma {:induction false} SmallStartsWithZero(value: nat, width: nat)
    requires (width >= 2 && value < 256) || (width >= 1 && value == 0)
    ensures BigEndian(value, width)[0] == 0
  {
    if width > 1 {
      SmallStartsWithZero(value / 256, width - 1);
    }
  }

  lemma FixedPeel(a: seq<Byte>, b: seq<Byte>, x: seq<Byte>, y: seq<Byte>)
    requires |a| == |b| && a + x == b + y
    ensures a == b && x == y
  {
    assert a == (a + x)[..|a|] && b == (b + y)[..|b|];
    assert x == (a + x)[|a|..] && y == (b + y)[|b|..];
  }

  lemma PrefixedPeel(a: seq<Byte>, b: seq<Byte>, x: seq<Byte>, y: seq<Byte>)
    requires Fits(a) && Fits(b)
    requires Prefixed(a) + x == Prefixed(b) + y
    ensures a == b && x == y
  {
    assert Prefixed(a) + x == U64(|a|) + (a + x);
    assert Prefixed(b) + y == U64(|b|) + (b + y);
    FixedPeel(U64(|a|), U64(|b|), a + x, b + y);
    U64Injective(|a|, |b|);
    FixedPeel(a, b, x, y);
  }

  /** A frame in front can be read back, whatever follows it. */
  lemma FramePeel(n: seq<Byte>, a: seq<Byte>, m: seq<Byte>, b: seq<Byte>, x: seq<Byte>, y: seq<Byte>)
    requires Fits(n) && Fits(a) && Fits(m) && Fits(b)
    requires Frame(n, a) + x == Frame(m, b) + y
    ensures n == m && a == b && x == y
  {
    assert Frame(n, a) + x == Prefixed(n) + (Prefixed(a) + x);
    assert Frame(m, b) + y == Prefixed(m) + (Prefixed(b) + y);
    PrefixedPeel(n, m, Prefixed(a) + x, Prefixed(b) + y);
    PrefixedPeel(a, b, x, y);
  }

  /** The incremental hasher: what matters of it is the byte string it has been fed. */
  class Hasher {
    var fed: seq<Byte>

    constructor ()
      ensures fed == []
    {
      fed := [];
    }

    /** `rest` is what the caller still has to feed. */
    method Update(bytes: seq<Byte>, ghost rest: seq<Byte>)
      modifies this
      ensures fed == old(fed) + bytes
      ensures fed + rest == old(fed) + (bytes + rest)
    {
      fed := fed + bytes;
    }

    method UpdatePrefixed(bytes: seq<Byte>, ghost rest: seq<Byte>)
      modifies this
      ensures fed == old(fed) + Prefixed(bytes)
      ensures fed + rest == old(fed) + (Prefixed(bytes) + rest)
    {
      Update(U64(|bytes|), bytes + rest);
      Update(bytes, rest);
    }

    method UpdateFrame(name: seq<Byte>, bytes: seq<Byte>, ghost rest: seq<Byte>)
      modifies this
      ensures fed == old(fed) + Frame(name, bytes)
      ensures fed + rest == old(fed) + (Frame(name, bytes) + rest)
    {
      UpdatePrefixed(name, Prefixed(bytes) + rest);
      UpdatePrefixed(bytes, rest);
    }
  }
}
