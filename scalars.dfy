/** The twelve fixed-width integer fields of construct.go (Int8 ... Uint64be):
    each reads and writes one Go integer type in a fixed byte order. */
module Scalars {
  import opened ByteSeq

  /** Go's fixed-width integer types. A decoded integer carries its type,
      and building checks it: an int16 is never accepted where a uint16 or
      an int32 is expected. */
  datatype IntKind = I8 | U8 | I16 | U16 | I32 | U32 | I64 | U64 {

    /** Size in bytes. */
    function Width(): nat
    {
      match this
      case I8 | U8 => 1
      case I16 | U16 => 2
      case I32 | U32 => 4
      case I64 | U64 => 8
    }

    predicate Signed()
    {
      this in {I8, I16, I32, I64}
    }

    /** 2^(bits - 1): the first value a signed type cannot hold. */
    function Half(): (h: nat)
      ensures 2 * h == Pow256(Width())
    {
      128 * Pow256(Width() - 1)
    }

    /** The values a Go variable of this type can hold. */
    predicate InRange(n: int)
    {
      if Signed() then 0 - Half() <= n < Half() else 0 <= n < Pow256(Width())
    }
  }

  datatype ByteOrder = BigEndian | LittleEndian

  /** The integer field descriptors, named as in construct.go. The one-byte
      types use big-endian order there, which makes no difference. */
  datatype Scalar =
    | Int8 | Uint8
    | Int16be | Int16le | Uint16be | Uint16le
    | Int32be | Int32le | Uint32be | Uint32le
    | Int64be | Uint64be
  {
    /** The Go type the field reads and expects. */
    function Kind(): IntKind
    {
      match this
      case Int8 => I8
      case Uint8 => U8
      case Int16be | Int16le => I16
      case Uint16be | Uint16le => U16
      case Int32be | Int32le => I32
      case Uint32be | Uint32le => U32
      case Int64be => I64
      case Uint64be => U64
    }

    function Order(): ByteOrder
    {
      match this
      case Int16le | Uint16le | Int32le | Uint32le => LittleEndian
      case _ => BigEndian
    }

    /** Bytes read and written. */
    function Width(): nat
    {
      Kind().Width()
    }
  }

  /** The bit pattern of n as an unsigned number: two's complement for
      negative values of a signed type. */
  function ToBits(k: IntKind, n: int): (u: nat)
    requires k.InRange(n)
    ensures u < Pow256(k.Width())
  {
    if n < 0 then n + Pow256(k.Width()) else n
  }

  /** The value of the type k whose bit pattern is u. */
  function FromBits(k: IntKind, u: nat): (n: int)
    requires u < Pow256(k.Width())
    ensures k.InRange(n)
  {
    if k.Signed() && u >= k.Half() then u - Pow256(k.Width()) else u
  }

  /** `binary.Write` of one integer in the field's byte order. */
  function EncodeScalar(s: Scalar, n: int): (b: seq<byte>)
    requires s.Kind().InRange(n)
    ensures |b| == s.Width()
  {
    var be := FromNatBE(ToBits(s.Kind(), n), s.Width());
    if s.Order() == BigEndian then be else Reverse(be)
  }

  /** `binary.Read` of one integer from exactly Width() bytes. */
  function DecodeScalar(s: Scalar, b: seq<byte>): (n: int)
    requires |b| == s.Width()
    ensures s.Kind().InRange(n)
  {
    var be := if s.Order() == BigEndian then b else Reverse(b);
    ToNatBEBound(be);
    FromBits(s.Kind(), ToNatBE(be))
  }

  lemma ModUnique(a: int, d: int, q: int, r: int)
    requires d > 0 && 0 <= r < d && a == d * q + r
    ensures a % d == r
  {
    DivUnique(a, d, q, r);
  }

  /** ToBits is reduction modulo 2^bits, the definition of two's complement. */
  lemma TwosComplement(k: IntKind, n: int)
    requires k.InRange(n)
    ensures ToBits(k, n) == n % Pow256(k.Width())
  {
    var p := Pow256(k.Width());
    if n < 0 {
      ModUnique(n, p, -1, n + p);
    } else {
      ModUnique(n, p, 0, n);
    }
  }

  lemma BitsRoundTrip(k: IntKind, n: int)
    requires k.InRange(n)
    ensures FromBits(k, ToBits(k, n)) == n
  {
  }

  lemma BitsRoundTripBack(k: IntKind, u: nat)
    requires u < Pow256(k.Width())
    ensures ToBits(k, FromBits(k, u)) == u
  {
  }

  /** Every value of the field's type survives a build followed by a parse. */
  lemma ScalarRoundTrip(s: Scalar, n: int)
    requires s.Kind().InRange(n)
    ensures DecodeScalar(s, EncodeScalar(s, n)) == n
  {
    var u := ToBits(s.Kind(), n);
    var be := FromNatBE(u, s.Width());
    ToFromNatBE(u, s.Width());
    BitsRoundTrip(s.Kind(), n);
    if s.Order() == LittleEndian {
      ReverseReverse(be);
    }
  }

  /** Every byte string of the field's width is the encoding of the value
      parsed from it: parse followed by build gives the bytes back. */
  lemma ScalarBytesRoundTrip(s: Scalar, b: seq<byte>)
    requires |b| == s.Width()
    ensures EncodeScalar(s, DecodeScalar(s, b)) == b
  {
    var k := s.Kind();
    var be := if s.Order() == BigEndian then b else Reverse(b);
    var u := ToNatBE(be);
    assert u < Pow256(k.Width()) by {
      ToNatBEBound(be);
    }
    assert DecodeScalar(s, b) == FromBits(k, u);
    assert ToBits(k, FromBits(k, u)) == u by {
      BitsRoundTripBack(k, u);
    }
    assert FromNatBE(u, s.Width()) == be by {
      FromToNatBE(be);
    }
    if s.Order() == LittleEndian {
      ReverseReverse(b);
    }
  }

  /** Byte i of the output is the base-256 digit of the bit pattern of
      weight 256^(width-1-i) for a big-endian field and 256^i for a
      little-endian one. */
  lemma ScalarByteOrder(s: Scalar, n: int, i: nat)
    requires s.Kind().InRange(n) && i < s.Width()
    ensures var u := n % Pow256(s.Width());
            EncodeScalar(s, n)[i] ==
              if s.Order() == BigEndian then (u / Pow256(s.Width() - 1 - i)) % 256
              else (u / Pow256(i)) % 256
  {
    TwosComplement(s.Kind(), n);
    var u := ToBits(s.Kind(), n);
    var w := s.Width();
    if s.Order() == BigEndian {
      FromNatBEDigit(u, w, i);
    } else {
      FromNatBEDigit(u, w, w - 1 - i);
    }
  }
}
