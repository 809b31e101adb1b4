/**
 * Fixed-width unsigned integers and their images on the wire: the PK8/UPK8,
 * PK16/UPK16 and PK32/UPK32 packing macros of rfb/rfb.h.  Every multi-byte
 * field of the protocol travels most significant byte first (network order).
 *
 * The program is built for little-endian hosts.  Where a value in host order
 * leaks onto the wire or into a later computation (raw pixels, and two misuses
 * of htonl) the model uses HostWord and Swap32, which describe such a host.
 */
module Wire {

  type uint8 = x: int | 0 <= x < 0x100
  type uint16 = x: int | 0 <= x < 0x1_0000
  type uint32 = x: int | 0 <= x < 0x1_0000_0000

  /** Bytes sent to or received from a socket. */
  type Bytes = seq<uint8>

  /** The number of distinct values n bytes can hold. */
  function Pow256(n: nat): (r: nat)
    ensures r > 0
  {
    if n == 0 then 1 else 256 * Pow256(n - 1)
  }

  /** The n low-order bytes of x, most significant first. */
  function ToBigEndian(n: nat, x: nat): (r: Bytes)
    ensures |r| == n
  {
    if n == 0 then [] else ToBigEndian(n - 1, x / 256) + [x % 256]
  }

  /** The number whose big-endian image is s. */
  function FromBigEndian(s: Bytes): (r: nat)
    ensures r < Pow256(|s|)
  {
    if s == [] then 0 else FromBigEndian(s[..|s| - 1]) * 256 + s[|s| - 1]
  }

  /** Decoding an n-byte big-endian image gives back every value that fits in n bytes. */
  lemma {:induction false} FromToBigEndian(n: nat, x: nat)
    requires x < Pow256(n)
    ensures FromBigEndian(ToBigEndian(n, x)) == x
  {
    if n > 0 {
      var s := ToBigEndian(n, x);
      assert s[..n - 1] == ToBigEndian(n - 1, x / 256);
      FromToBigEndian(n - 1, x / 256);
    }
  }

  /** Encoding the value of a byte string gives back that byte string. */
  lemma {:induction false} ToFromBigEndian(s: Bytes)
    ensures ToBigEndian(|s|, FromBigEndian(s)) == s
  {
    if s != [] {
      var init := s[..|s| - 1];
      ToFromBigEndian(init);
      assert s == init + [s[|s| - 1]];
    }
  }

  /** The C conversion to uint8_t (PK8 and UPK8): reduction modulo 2^8. */
  function Trunc8(i: int): (r: uint8)
    ensures (i - r) % 0x100 == 0
  {
    i % 0x100
  }

  /** The C conversion to uint16_t: reduction modulo 2^16. */
  function Trunc16(i: int): (r: uint16)
    ensures (i - r) % 0x1_0000 == 0
  {
    i % 0x1_0000
  }

  /** The C conversion to uint32_t: reduction modulo 2^32. */
  function Trunc32(i: int): (r: uint32)
    ensures (i - r) % 0x1_0000_0000 == 0
  {
    i % 0x1_0000_0000
  }

  /** PK16: the two bytes of (uint16_t) i after htons. */
  function Pk16(i: int): (r: Bytes)
    ensures |r| == 2
    ensures r[0] as int * 0x100 + r[1] as int == Trunc16(i)
  {
    FromToBigEndian(2, Trunc16(i));
    ToBigEndian(2, Trunc16(i))
  }

  /** UPK16: the value of two bytes received in network order. */
  function Upk16(b: Bytes): (r: uint16)
    requires |b| == 2
    ensures r == b[0] as int * 0x100 + b[1] as int
  {
    assert b[..2] == b && b[..2][..1] == b[..1] && b[..1][..0] == [];
    assert FromBigEndian(b[..1]) == b[0];
    FromBigEndian(b)
  }

  /** PK32: the four bytes of (uint32_t) i after htonl. */
  function Pk32(i: int): (r: Bytes)
    ensures |r| == 4
    ensures r[0] as int * 0x100_0000 + r[1] as int * 0x1_0000 + r[2] as int * 0x100 + r[3] as int == Trunc32(i)
  {
    var v := Trunc32(i);
    FromToBigEndian(4, v);
    var r := ToBigEndian(4, v);
    FourBytesValue(r);
    r
  }

  /** UPK32: the value of four bytes received in network order. */
  function Upk32(b: Bytes): (r: uint32)
    requires |b| == 4
    ensures r == b[0] as int * 0x100_0000 + b[1] as int * 0x1_0000 + b[2] as int * 0x100 + b[3] as int
  {
    FourBytesValue(b);
    FromBigEndian(b)
  }

  lemma FourBytesValue(b: Bytes)
    requires |b| == 4
    ensures FromBigEndian(b) == b[0] as int * 0x100_0000 + b[1] as int * 0x1_0000 + b[2] as int * 0x100 + b[3] as int
  {
    assert b[..4] == b;
    assert b[..4][..3] == b[..3] && b[..3][..2] == b[..2] && b[..2][..1] == b[..1] && b[..1][..0] == [];
    assert FromBigEndian(b[..1]) == b[0];
    assert FromBigEndian(b[..2]) == b[0] as int * 0x100 + b[1] as int;
    assert FromBigEndian(b[..3]) == b[0] as int * 0x1_0000 + b[1] as int * 0x100 + b[2] as int;
  }

  lemma Pk8RoundTrip(b: uint8)
    ensures Trunc8(Trunc8(b)) == b
  {
  }

  /** UPK16(PK16(x)) == x for every 16-bit x, and the converse for every pair of bytes. */
  lemma Pk16RoundTrip(x: uint16, b: Bytes)
    requires |b| == 2
    ensures Upk16(Pk16(x)) == x
    ensures Pk16(Upk16(b)) == b
  {
    assert Upk16(Pk16(x)) == x by {
      assert Trunc16(x) == x;
    }
    assert Pk16(Upk16(b)) == b by {
      ToFromBigEndian(b);
      assert Trunc16(Upk16(b)) == Upk16(b) == FromBigEndian(b);
    }
  }

  /** UPK32(PK32(x)) == x for every 32-bit x, and the converse for every four bytes. */
  lemma Pk32RoundTrip(x: uint32, b: Bytes)
    requires |b| == 4
    ensures Upk32(Pk32(x)) == x
    ensures Pk32(Upk32(b)) == b
  {
    assert Upk32(Pk32(x)) == x by {
      assert Trunc32(x) == x;
    }
    assert Pk32(Upk32(b)) == b by {
      ToFromBigEndian(b);
      assert Trunc32(Upk32(b)) == Upk32(b) == FromBigEndian(b);
    }
  }

  function Reverse<T>(s: seq<T>): (r: seq<T>)
    ensures |r| == |s|
    ensures forall i :: 0 <= i < |s| ==> r[i] == s[|s| - 1 - i]
  {
    if s == [] then [] else Reverse(s[1..]) + [s[0]]
  }

  /**
   * htonl and ntohl as functions on values, on a little-endian host: the
   * 32-bit word whose network image is the byte-reversed image of x.
   */
  function Swap32(x: uint32): (r: uint32)
    ensures Pk32(r) == Reverse(Pk32(x))
  {
    var b := Reverse(Pk32(x));
    Pk32RoundTrip(0, b);
    Upk32(b)
  }

  /** The four bytes a uint32_t occupies in the memory of a little-endian host. */
  function HostWord(x: uint32): (r: Bytes)
    ensures |r| == 4
    ensures r == Pk32(Swap32(x))
    ensures r[0] == x % 0x100
  {
    Pk32LowByte(x);
    Reverse(Pk32(x))
  }

  /** The last byte on the wire is the low-order byte. */
  lemma Pk32LowByte(x: uint32)
    ensures Pk32(x)[3] == x % 0x100
  {
    assert Pk32(x) == ToBigEndian(4, x);
    assert ToBigEndian(4, x) == ToBigEndian(3, x / 256) + [x % 256];
  }
}
