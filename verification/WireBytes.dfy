/** Fixed-width integers on the wire: big-endian, whatever the byte order of the host. */
module WireBytes {
  import opened Arithmetic

  type byte = x: int | 0 <= x < 256

  function Pow256(width: nat): (p: nat)
    ensures p >= 1
  {
    if width == 0 then 1 else 256 * Pow256(width - 1)
  }

  /** The bytes of a value, most significant first (network byte order, Appendix B of RFC 791). */
  function BigEndian(width: nat, v: nat): (bytes: seq<byte>)
    requires v < Pow256(width)
    ensures |bytes| == width
  {
    if width == 0 then [] else BigEndian(width - 1, v / 256) + [v % 256]
  }

  function FromBigEndian(bytes: seq<byte>): (v: nat)
    ensures v < Pow256(|bytes|)
  {
    if bytes == [] then 0 else FromBigEndian(bytes[..|bytes| - 1]) * 256 + bytes[|bytes| - 1]
  }

  /** The powers the wire uses. */
  lemma {:induction false} PowersOnTheWire()
    ensures Pow256(0) == 1 && Pow256(1) == 0x100 && Pow256(2) == 0x1_0000 && Pow256(4) == 0x1_0000_0000
    ensures Pow256(8) == 0x1_0000_0000_0000_0000
  {
    assert Pow256(2) == 256 * Pow256(1) && Pow256(3) == 256 * Pow256(2) && Pow256(4) == 256 * Pow256(3);
    assert Pow256(5) == 256 * Pow256(4) && Pow256(6) == 256 * Pow256(5);
    assert Pow256(7) == 256 * Pow256(6) && Pow256(8) == 256 * Pow256(7);
  }

  /** Dividing by 256 and then by p is dividing by their product. */
  lemma {:induction false} DivideTwice(v: nat, p: nat)
    requires p > 0
    ensures v / 256 / p == v / (256 * p)
  {
    var q := v / 256;
    assert q == q / p * p + q % p && v == q * 256 + v % 256;
    assert v == q / p * (256 * p) + (q % p * 256 + v % 256);
    DivModUnique(v, 256 * p, q / p, q % p * 256 + v % 256);
  }

  /** Network byte order: the byte i places before the last is worth 256 to the power i, so the last byte is the
      least significant one and the first the most. */
  lemma {:induction false} BigEndianDigit(width: nat, v: nat, i: nat)
    requires v < Pow256(width) && i < width
    ensures BigEndian(width, v)[width - 1 - i] == v / Pow256(i) % 256
  {
    if i > 0 {
      BigEndianDigit(width - 1, v / 256, i - 1);
      DivideTwice(v, Pow256(i - 1));
    }
  }

  lemma {:induction false} FromBigEndianDigit(bytes: seq<byte>, i: nat)
    requires i < |bytes|
    ensures FromBigEndian(bytes) / Pow256(i) % 256 == bytes[|bytes| - 1 - i]
  {
    BytesRoundTrip(bytes);
    BigEndianDigit(|bytes|, FromBigEndian(bytes), i);
  }

  lemma {:induction false} ValueRoundTrip(width: nat, v: nat)
    requires v < Pow256(width)
    ensures FromBigEndian(BigEndian(width, v)) == v
  {
    if width > 0 {
      ValueRoundTrip(width - 1, v / 256);
      var bytes := BigEndian(width, v);
      assert bytes[..|bytes| - 1] == BigEndian(width - 1, v / 256);
    }
  }

  lemma {:induction false} BytesRoundTrip(bytes: seq<byte>)
    ensures BigEndian(|bytes|, FromBigEndian(bytes)) == bytes
  {
    if bytes != [] {
      BytesRoundTrip(bytes[..|bytes| - 1]);
      assert bytes == bytes[..|bytes| - 1] + [bytes[|bytes| - 1]];
    }
  }

  // The host's own byte order

  function Reverse(bytes: seq<byte>): (r: seq<byte>)
    ensures |r| == |bytes|
  {
    if bytes == [] then [] else Reverse(bytes[1..]) + [bytes[0]]
  }

  lemma {:induction false} ReverseConcat(a: seq<byte>, b: seq<byte>)
    ensures Reverse(a + b) == Reverse(b) + Reverse(a)
  {
    if a == [] {
      assert a + b == b;
    } else {
      ReverseConcat(a[1..], b);
      assert (a + b)[1..] == a[1..] + b;
    }
  }

  lemma {:induction false} ReverseTwice(bytes: seq<byte>)
    ensures Reverse(Reverse(bytes)) == bytes
  {
    if bytes != [] {
      ReverseTwice(bytes[1..]);
      ReverseConcat(Reverse(bytes[1..]), [bytes[0]]);
      assert Reverse([bytes[0]]) == [bytes[0]] by { assert [bytes[0]][1..] == []; }
    }
  }

  /** How a host lays out a value in memory, and what value a host reads from a layout. */
  function Image(bigHost: bool, width: nat, v: nat): (bytes: seq<byte>)
    requires v < Pow256(width)
    ensures |bytes| == width
  {
    if bigHost then BigEndian(width, v) else Reverse(BigEndian(width, v))
  }

  function FromImage(bigHost: bool, bytes: seq<byte>): (v: nat)
    ensures v < Pow256(|bytes|)
  {
    FromBigEndian(if bigHost then bytes else Reverse(bytes))
  }

  function Byteswap(width: nat, v: nat): (r: nat)
    requires v < Pow256(width)
    ensures r < Pow256(width)
  {
    FromBigEndian(Reverse(BigEndian(width, v)))
  }

  /** Swapping on a little-endian host, or not swapping on a big-endian one, puts network order in memory. */
  lemma {:induction false} PutIsNetworkOrder(bigHost: bool, width: nat, v: nat)
    requires v < Pow256(width)
    ensures Image(bigHost, width, if bigHost then v else Byteswap(width, v)) == BigEndian(width, v)
  {
    BytesRoundTrip(Reverse(BigEndian(width, v)));
    ReverseTwice(BigEndian(width, v));
  }

  lemma {:induction false} GetIsNetworkOrder(bigHost: bool, bytes: seq<byte>)
    ensures var raw := FromImage(bigHost, bytes);
            (if bigHost then raw else Byteswap(|bytes|, raw)) == FromBigEndian(bytes)
  {
    BytesRoundTrip(Reverse(bytes));
    ReverseTwice(bytes);
  }

  // Signed integers in two's complement

  function ToUnsigned(width: nat, v: int): (u: nat)
    requires 0 <= 2 * v + Pow256(width) < 2 * Pow256(width)
    ensures u < Pow256(width) && (u == v || u == v + Pow256(width))
  {
    if v < 0 then v + Pow256(width) else v
  }

  function ToSigned(width: nat, u: nat): (v: int)
    requires u < Pow256(width)
    ensures 0 <= 2 * v + Pow256(width) < 2 * Pow256(width) && (u == v || u == v + Pow256(width))
  {
    if 2 * u >= Pow256(width) then u - Pow256(width) else u
  }

  lemma {:induction false} SignedRoundTrip(width: nat, v: int)
    requires 0 <= 2 * v + Pow256(width) < 2 * Pow256(width)
    ensures ToSigned(width, ToUnsigned(width, v)) == v
  {
  }

  // Buffers

  /** The buffer after writing bytes at p, and nothing else. */
  ghost predicate Wrote(before: seq<byte>, after: seq<byte>, p: nat, bytes: seq<byte>) {
    && p + |bytes| <= |before|
    && after == before[..p] + bytes + before[p + |bytes|..]
  }

  lemma {:induction false} WroteThen(a: seq<byte>, b: seq<byte>, c: seq<byte>, p: nat, x: seq<byte>, y: seq<byte>)
    requires Wrote(a, b, p, x) && Wrote(b, c, p + |x|, y)
    ensures Wrote(a, c, p, x + y)
  {
    assert |b| == |a|;
    assert b[..p + |x|] == a[..p] + x;
    assert b[p + |x| + |y|..] == a[p + |x| + |y|..];
    assert a[..p] + x + y == a[..p] + (x + y);
  }

  /** Writing what comes before, after what comes behind it. */
  lemma {:induction false} WroteBefore(a: seq<byte>, b: seq<byte>, c: seq<byte>, p: nat, x: seq<byte>, y: seq<byte>)
    requires Wrote(a, b, p + |x|, y) && Wrote(b, c, p, x)
    ensures Wrote(a, c, p, x + y)
  {
    assert |b| == |a|;
    assert b[..p] == a[..p];
    assert b[p + |x|..] == y + a[p + |x| + |y|..];
    assert a[..p] + x + (y + a[p + |x| + |y|..]) == a[..p] + (x + y) + a[p + |x| + |y|..];
  }

  /** Write one integer and advance. */
  method Put(buf: array<byte>, p: nat, width: nat, v: nat, bigHost: bool) returns (next: nat)
    requires p + width <= buf.Length && v < Pow256(width)
    modifies buf
    ensures next == p + width && Wrote(old(buf[..]), buf[..], p, BigEndian(width, v))
    ensures forall i: nat :: i < width ==> buf[p + (width - 1 - i)] == v / Pow256(i) % 256
  {
    PutIsNetworkOrder(bigHost, width, v);
    var swapped := if bigHost then v else Byteswap(width, v);
    var image := Image(bigHost, width, swapped);
    forall i | 0 <= i < width {
      buf[p + i] := image[i];
    }
    next := p + width;
    assert buf[..] == old(buf[..])[..p] + image + old(buf[..])[p + width..];
    forall i: nat | i < width ensures buf[p + (width - 1 - i)] == v / Pow256(i) % 256 {
      BigEndianDigit(width, v, i);
    }
  }

  /** Read one integer and advance. */
  method Get(buf: array<byte>, p: nat, width: nat, bigHost: bool) returns (v: nat, next: nat)
    requires p + width <= buf.Length
    ensures next == p + width && v == FromBigEndian(buf[p..p + width]) < Pow256(width)
    ensures forall i: nat :: i < width ==> v / Pow256(i) % 256 == buf[p + (width - 1 - i)]
  {
    GetIsNetworkOrder(bigHost, buf[p..p + width]);
    var raw := FromImage(bigHost, buf[p..p + width]);
    v := if bigHost then raw else Byteswap(width, raw);
    next := p + width;
    forall i: nat | i < width ensures v / Pow256(i) % 256 == buf[p + (width - 1 - i)] {
      FromBigEndianDigit(buf[p..p + width], i);
    }
  }
}
