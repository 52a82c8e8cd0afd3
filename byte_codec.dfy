/**
 * Fixed-width integers as bytes in a configurable byte order: the encoder
 * behind OutputAssembler.writeByte/write2Byte/write4Byte/write8Byte, and the
 * decoder that is its inverse.
 */
module ByteCodec {

  type uint8 = x: int | 0 <= x < 0x100

  datatype ByteOrder = LittleEndian | BigEndian

  function Pow256(n: nat): (r: nat)
    ensures r >= 1
  {
    if n == 0 then 1 else 0x100 * Pow256(n - 1)
  }

  /** The widths the symbol-table record uses. */
  lemma Pow256Widths()
    ensures Pow256(1) == 0x100 && Pow256(2) == 0x1_0000
    ensures Pow256(4) == 0x1_0000_0000 && Pow256(8) == 0x1_0000_0000_0000_0000
  {
  }

  /** The n low-order bytes of x, least significant first. */
  function LittleEndianBytes(x: nat, n: nat): (r: seq<uint8>)
    requires x < Pow256(n)
    ensures |r| == n
  {
    if n == 0 then [] else [x % 0x100] + LittleEndianBytes(x / 0x100, n - 1)
  }

  /** The unsigned number that bytes spell, least significant first. */
  function LittleEndianValue(b: seq<uint8>): (r: nat)
    ensures r < Pow256(|b|)
  {
    if b == [] then 0 else b[0] + 0x100 * LittleEndianValue(b[1..])
  }

  lemma {:induction false} LittleEndianRoundTrip(x: nat, n: nat)
    requires x < Pow256(n)
    ensures LittleEndianValue(LittleEndianBytes(x, n)) == x
  {
    if n > 0 {
      var b := LittleEndianBytes(x, n);
      LittleEndianRoundTrip(x / 0x100, n - 1);
      assert b[1..] == LittleEndianBytes(x / 0x100, n - 1);
    }
  }

  function Reverse(s: seq<uint8>): (r: seq<uint8>)
    ensures |r| == |s|
    ensures forall i :: 0 <= i < |s| ==> r[i] == s[|s| - 1 - i]
  {
    if s == [] then [] else Reverse(s[1..]) + [s[0]]
  }

  lemma ReverseInvolution(s: seq<uint8>)
    ensures Reverse(Reverse(s)) == s
  {
    assert forall i :: 0 <= i < |s| ==> Reverse(Reverse(s))[i] == s[i];
  }

  /** x fits an n-byte two's-complement integer. */
  predicate FitsSigned(x: int, n: nat)
  {
    var half: int := Pow256(n) / 2;
    -half <= x < half
  }

  /** Two's-complement representation of x in n bytes (x may be negative). */
  function TwosComplement(x: int, n: nat): (r: nat)
    requires FitsSigned(x, n)
    ensures r < Pow256(n)
    ensures r >= Pow256(n) / 2 <==> x < 0
  {
    if x < 0 then x + Pow256(n) else x
  }

  /** Writing a signed n-byte integer in the given byte order. */
  function EncodeSigned(x: int, n: nat, order: ByteOrder): (r: seq<uint8>)
    requires FitsSigned(x, n)
    ensures |r| == n
  {
    var le := LittleEndianBytes(TwosComplement(x, n), n);
    match order
    case LittleEndian => le
    case BigEndian => Reverse(le)
  }

  /** Reading back a signed integer written by EncodeSigned. */
  function DecodeSigned(b: seq<uint8>, order: ByteOrder): (r: int)
    requires |b| >= 1
    ensures FitsSigned(r, |b|)
  {
    var u := match order
      case LittleEndian => LittleEndianValue(b)
      case BigEndian => LittleEndianValue(Reverse(b));
    var p := Pow256(|b|);
    Pow256Even(|b|);
    if u < p / 2 then u else u - p
  }

  /** Every positive width has as many negative as non-negative values. */
  lemma Pow256Even(n: nat)
    requires n >= 1
    ensures Pow256(n) == 2 * (Pow256(n) / 2)
  {
    var k := Pow256(n - 1);
    assert Pow256(n) == 2 * (128 * k);
  }

  /** Decoding inverts encoding, in either byte order, for every representable value. */
  lemma SignedRoundTrip(x: int, n: nat, order: ByteOrder)
    requires n >= 1
    requires FitsSigned(x, n)
    ensures DecodeSigned(EncodeSigned(x, n, order), order) == x
  {
    var le := LittleEndianBytes(TwosComplement(x, n), n);
    LittleEndianRoundTrip(TwosComplement(x, n), n);
    if order == BigEndian {
      ReverseInvolution(le);
    }
  }
}
