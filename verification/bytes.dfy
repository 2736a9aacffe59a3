/**
 Octets as they are held in a JavaScript `Uint8Array`, the XOR checksum of the
 USART bootloader protocol, and the 32-bit big- and little-endian field
 encodings both flashers put on the wire.
 */
module Bytes {

  /** One element of a `Uint8Array`. */
  type byte = b: int | 0 <= b < 256

  const TwoTo32: int := 0x1_0000_0000

  /** A power of two up to 2^8: the widths the bitwise XOR below is proved for. */
  predicate IsPow2(k: nat)
  {
    k == 1 || k == 2 || k == 4 || k == 8 || k == 16 || k == 32 || k == 64 || k == 128 || k == 256
  }

  /** Parity of the XOR of two naturals: its least significant bit. */
  function LowBit(a: nat, b: nat): nat
  {
    if a % 2 == b % 2 then 0 else 1
  }

  /** Bitwise exclusive or of two naturals, one binary digit at a time. */
  function XorNat(a: nat, b: nat): nat
    decreases a + b
  {
    if a == 0 then b
    else if b == 0 then a
    else 2 * XorNat(a / 2, b / 2) + LowBit(a, b)
  }

  lemma {:induction false} XorNatSplit(a: nat, b: nat)
    ensures XorNat(a, b) % 2 == LowBit(a, b)
    ensures XorNat(a, b) / 2 == XorNat(a / 2, b / 2)
  {
    if a == 0 {
      assert XorNat(0, b / 2) == b / 2;
    } else if b == 0 {
      assert XorNat(a / 2, 0) == a / 2;
    }
  }

  /** XOR never sets a bit above the width of its operands. */
  lemma {:induction false} XorNatBound(a: nat, b: nat, k: nat)
    requires IsPow2(k) && a < k && b < k
    ensures XorNat(a, b) < k
    decreases k
  {
    if a != 0 && b != 0 {
      XorNatBound(a / 2, b / 2, k / 2);
    }
  }

  lemma {:induction false} XorNatAssoc(a: nat, b: nat, c: nat)
    ensures XorNat(XorNat(a, b), c) == XorNat(a, XorNat(b, c))
    decreases a + b + c
  {
    if a != 0 && b != 0 && c != 0 {
      var l := XorNat(XorNat(a, b), c);
      var r := XorNat(a, XorNat(b, c));
      XorNatSplit(XorNat(a, b), c);
      XorNatSplit(a, b);
      XorNatSplit(a, XorNat(b, c));
      XorNatSplit(b, c);
      XorNatAssoc(a / 2, b / 2, c / 2);
      assert l / 2 == r / 2;
      assert l % 2 == r % 2;
      assert l == 2 * (l / 2) + l % 2;
      assert r == 2 * (r / 2) + r % 2;
    }
  }

  lemma {:induction false} XorNatSelf(a: nat)
    ensures XorNat(a, a) == 0
    decreases a
  {
    if a != 0 {
      XorNatSelf(a / 2);
    }
  }

  lemma {:induction false} XorNatComm(a: nat, b: nat)
    ensures XorNat(a, b) == XorNat(b, a)
    decreases a + b
  {
    if a != 0 && b != 0 {
      XorNatComm(a / 2, b / 2);
    }
  }

  /** XOR with all ones below `k` flips every bit: the one's complement. */
  lemma {:induction false} XorNatAllOnes(a: nat, k: nat)
    requires IsPow2(k) && a < k
    ensures XorNat(a, k - 1) == k - 1 - a
    decreases k
  {
    if a != 0 && k > 1 {
      XorNatAllOnes(a / 2, k / 2);
      assert (k - 1) / 2 == k / 2 - 1;
    }
  }

  /** Bitwise exclusive or of two octets (JavaScript `^` on byte values). */
  function Xor(a: byte, b: byte): byte
  {
    XorNatBound(a, b, 256);
    XorNat(a, b)
  }

  /** The checksum byte sent after a bootloader opcode: `op ^ 0xFF`, its one's complement. */
  function Complement(op: byte): (r: byte)
    ensures r == 255 - op
  {
    XorNatAllOnes(op, 256);
    Xor(op, 0xFF)
  }

  lemma XorZeroRight(a: byte)
    ensures Xor(a, 0) == a
  {
  }

  lemma XorSelf(a: byte)
    ensures Xor(a, a) == 0
  {
    XorNatSelf(a);
  }

  lemma XorAssoc(a: byte, b: byte, c: byte)
    ensures Xor(Xor(a, b), c) == Xor(a, Xor(b, c))
  {
    XorNatAssoc(a, b, c);
  }

  /**
   XOR of two octets is symmetric, is undone by XORing the second operand
   again, and is zero exactly when the operands are equal: the facts the
   block checksums rely on.
   */
  lemma XorCancels(a: byte, b: byte)
    ensures Xor(a, b) == Xor(b, a)
    ensures Xor(Xor(a, b), b) == a
    ensures Xor(a, b) == 0 <==> a == b
  {
    XorNatComm(a, b);
    XorAssoc(a, b, b);
    XorSelf(b);
    XorZeroRight(a);
  }

  /**
   The running XOR of `data`, folded from the first byte to the last
   starting from 0, as the checksum loop does.
   */
  function Checksum(data: seq<byte>): byte
  {
    if |data| == 0 then 0 else Xor(Checksum(data[..|data| - 1]), data[|data| - 1])
  }

  /** The checksum loop: an accumulator XORed with each byte in turn. */
  method CalculateChecksum(data: seq<byte>) returns (checksum: byte)
    ensures checksum == Checksum(data)
    ensures |data| == 0 ==> checksum == 0
  {
    checksum := 0;
    var i := 0;
    while i < |data|
      invariant 0 <= i <= |data|
      invariant checksum == Checksum(data[..i])
    {
      assert data[..i + 1][..i] == data[..i];
      checksum := Xor(checksum, data[i]);
      i := i + 1;
    }
    assert data[..i] == data;
  }

  /** The checksum of a concatenation is the XOR of the two checksums. */
  lemma {:induction false} ChecksumAppend(a: seq<byte>, b: seq<byte>)
    ensures Checksum(a + b) == Xor(Checksum(a), Checksum(b))
    decreases |b|
  {
    if |b| == 0 {
      assert a + b == a;
      XorZeroRight(Checksum(a));
    } else {
      var b' := b[..|b| - 1];
      assert (a + b)[..|a + b| - 1] == a + b';
      ChecksumAppend(a, b');
      XorAssoc(Checksum(a), Checksum(b'), b[|b| - 1]);
    }
  }

  /** The checksum does not depend on the order of the parts it is folded over. */
  lemma ChecksumOrderFree(a: seq<byte>, b: seq<byte>)
    ensures Checksum(a + b) == Checksum(b + a)
  {
    ChecksumAppend(a, b);
    ChecksumAppend(b, a);
    XorCancels(Checksum(a), Checksum(b));
  }

  /**
   Appending the checksum makes the whole block XOR to zero, which is the
   test the receiving bootloader applies to every checksummed block.
   */
  lemma ChecksumSeals(data: seq<byte>)
    ensures Checksum(data + [Checksum(data)]) == 0
  {
    assert (data + [Checksum(data)])[..|data|] == data;
    XorSelf(Checksum(data));
  }

  /** Weight of the `k`-th least significant octet of a 32-bit word. */
  function Weight(k: nat): nat
    requires k < 4
  {
    if k == 0 then 1 else if k == 1 then 0x100 else if k == 2 then 0x1_0000 else 0x100_0000
  }

  /**
   `(x >> 8k) & 0xFF` in JavaScript: the shift first converts `x` to a
   signed 32-bit integer, so only `x mod 2^32` matters, for every integer `x`.
   */
  function ByteOf(x: int, k: nat): byte
    requires k < 4
  {
    (x % TwoTo32) / Weight(k) % 256
  }

  /** Most significant octet first. */
  function Be32(x: int): (r: seq<byte>)
    ensures |r| == 4
  {
    [ByteOf(x, 3), ByteOf(x, 2), ByteOf(x, 1), ByteOf(x, 0)]
  }

  /** Least significant octet first. */
  function Le32(x: int): (r: seq<byte>)
    ensures |r| == 4
  {
    [ByteOf(x, 0), ByteOf(x, 1), ByteOf(x, 2), ByteOf(x, 3)]
  }

  function DecodeBe32(b: seq<byte>): (r: int)
    requires |b| == 4
    ensures 0 <= r < TwoTo32
  {
    (b[0] as int) * 0x100_0000 + (b[1] as int) * 0x1_0000 + (b[2] as int) * 0x100 + b[3]
  }

  function DecodeLe32(b: seq<byte>): (r: int)
    requires |b| == 4
    ensures 0 <= r < TwoTo32
  {
    (b[3] as int) * 0x100_0000 + (b[2] as int) * 0x1_0000 + (b[1] as int) * 0x100 + b[0]
  }

  /** The four octets of `u`, for `0 <= u < 2^32`, recombine to `u`. */
  lemma Digits(u: int)
    requires 0 <= u < TwoTo32
    ensures u == (u / 0x100_0000 % 256) * 0x100_0000 + (u / 0x1_0000 % 256) * 0x1_0000
               + (u / 0x100 % 256) * 0x100 + u % 256
  {
    var q1 := u / 0x100;
    var q2 := q1 / 0x100;
    var q3 := q2 / 0x100;
    assert u == q1 * 0x100 + u % 256;
    assert q1 == q2 * 0x100 + q1 % 256;
    assert q2 == q3 * 0x100 + q2 % 256;
    assert q3 < 256;
    assert u / 0x1_0000 == q2;
    assert u / 0x100_0000 == q3;
  }

  /** Decoding the big-endian field gives back the address modulo 2^32. */
  lemma Be32RoundTrip(x: int)
    ensures DecodeBe32(Be32(x)) == x % TwoTo32
  {
    Digits(x % TwoTo32);
  }

  /** Decoding the little-endian field gives back the value modulo 2^32. */
  lemma Le32RoundTrip(x: int)
    ensures DecodeLe32(Le32(x)) == x % TwoTo32
  {
    Digits(x % TwoTo32);
  }

  /** The octets of a word assembled from four octets are those octets. */
  lemma OctetsOf(h: byte, m: byte, n: byte, l: byte)
    ensures var u := (h as int) * 0x100_0000 + (m as int) * 0x1_0000 + (n as int) * 0x100 + l;
      && u % TwoTo32 == u
      && u / 0x100_0000 % 256 == h
      && u / 0x1_0000 % 256 == m
      && u / 0x100 % 256 == n
      && u % 256 == l
  {
    var u := (h as int) * 0x100_0000 + (m as int) * 0x1_0000 + (n as int) * 0x100 + l;
    var q1 := (h as int) * 0x1_0000 + (m as int) * 0x100 + n;
    var q2 := (h as int) * 0x100 + m;
    assert u == q1 * 0x100 + l;
    assert u / 0x100 == q1;
    assert q1 == q2 * 0x100 + n;
    assert q1 / 0x100 == q2;
    assert u / 0x1_0000 == q2;
    assert q2 / 0x100 == h;
    assert u / 0x100_0000 == h;
  }

  /** Every 4-byte field is the encoding of the value it decodes to. */
  lemma Be32OfDecode(b: seq<byte>)
    requires |b| == 4
    ensures Be32(DecodeBe32(b)) == b
  {
    OctetsOf(b[0], b[1], b[2], b[3]);
  }

  lemma Le32OfDecode(b: seq<byte>)
    requires |b| == 4
    ensures Le32(DecodeLe32(b)) == b
  {
    OctetsOf(b[3], b[2], b[1], b[0]);
  }

  /** Two values share a 32-bit encoding exactly when they agree modulo 2^32. */
  lemma Le32Injective(x: int, y: int)
    ensures Le32(x) == Le32(y) <==> x % TwoTo32 == y % TwoTo32
  {
    Le32RoundTrip(x);
    Le32RoundTrip(y);
  }

  /** A sequence of `n` zero bytes. */
  function Zeros(n: nat): (r: seq<byte>)
    ensures |r| == n
    ensures forall i :: 0 <= i < n ==> r[i] == 0
  {
    seq(n, _ => 0)
  }
}
