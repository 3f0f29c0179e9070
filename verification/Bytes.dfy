/**
 Octets, the little-endian fields of encoding/binary, the fixed-width sums the checksums
 are made of, and exclusive-or.
 */
module Bytes {

  type byte = b: int | 0 <= b < 0x100
  type uint16 = n: int | 0 <= n < 0x1_0000
  type uint32 = n: int | 0 <= n < 0x1_0000_0000

  type Bytes = seq<byte>

  // ----- little-endian integers -----

  function Le16(n: uint16): (r: Bytes)
    ensures |r| == 2
  {
    [n % 0x100, n / 0x100]
  }

  function Le32(n: uint32): (r: Bytes)
    ensures |r| == 4
  {
    [n % 0x100, n / 0x100 % 0x100, n / 0x1_0000 % 0x100, n / 0x100_0000]
  }

  function FromLe16(b: Bytes): (n: uint16)
    requires |b| == 2
  {
    b[0] as int + 0x100 * b[1] as int
  }

  function FromLe32(b: Bytes): (n: uint32)
    requires |b| == 4
  {
    b[0] as int + 0x100 * b[1] as int + 0x1_0000 * b[2] as int + 0x100_0000 * b[3] as int
  }

  lemma Le16RoundTrip(n: uint16)
    ensures FromLe16(Le16(n)) == n
  {
  }

  lemma Le32RoundTrip(n: uint32)
    ensures FromLe32(Le32(n)) == n
  {
    var q := n / 0x1_0000;
    assert q / 0x100 == n / 0x100_0000;
    assert n / 0x1_0000 == n / 0x100 / 0x100;
  }

  /** The number a string of octets writes, least significant first. */
  function LittleEndian(b: Bytes): nat {
    if b == [] then 0 else b[0] as int + 0x100 * LittleEndian(b[1..])
  }

  lemma LittleEndianOf2(b: Bytes)
    requires |b| == 2
    ensures LittleEndian(b) == b[0] as int + 0x100 * b[1] as int
  {
    assert b[1..][1..] == [];
    assert LittleEndian(b[1..]) == b[1] as int;
  }

  lemma LittleEndianOf4(b: Bytes)
    requires |b| == 4
    ensures LittleEndian(b) == b[0] as int + 0x100 * b[1] as int + 0x1_0000 * b[2] as int + 0x100_0000 * b[3] as int
  {
    LittleEndianOf2(b[2..]);
    assert b[1..][1..] == b[2..];
    assert LittleEndian(b[1..]) == b[1] as int + 0x100 * LittleEndian(b[2..]);
  }

  /** The fields are little-endian, written and read. */
  lemma FieldsAreLittleEndian(m: uint16, n: uint32, two: Bytes, four: Bytes)
    requires |two| == 2 && |four| == 4
    ensures LittleEndian(Le16(m)) == m as int && LittleEndian(Le32(n)) == n as int
    ensures FromLe16(two) as int == LittleEndian(two) && FromLe32(four) as int == LittleEndian(four)
  {
    LittleEndianOf2(two);
    LittleEndianOf2(Le16(m));
    LittleEndianOf4(four);
    LittleEndianOf4(Le32(n));
    Le32RoundTrip(n);
  }

  // ----- sums -----

  function Sum(s: Bytes): nat {
    if s == [] then 0 else s[0] + Sum(s[1..])
  }

  lemma {:induction false} SumAppend(a: Bytes, b: Bytes)
    ensures Sum(a + b) == Sum(a) + Sum(b)
  {
    if a == [] {
      assert a + b == b;
    } else {
      assert (a + b)[1..] == a[1..] + b;
      SumAppend(a[1..], b);
    }
  }

  lemma SumSnoc(s: Bytes, i: nat)
    requires i < |s|
    ensures Sum(s[..i + 1]) == Sum(s[..i]) + s[i]
  {
    assert s[..i + 1] == s[..i] + [s[i]];
    SumAppend(s[..i], [s[i]]);
    assert [s[i]][1..] == [];
  }

  lemma SumUpdate(s: Bytes, i: nat, b: byte)
    requires i < |s|
    ensures Sum(s[i := b]) == Sum(s) - s[i] + b
  {
    var t := s[i := b];
    SumSnoc(s, i);
    SumSnoc(t, i);
    assert s == s[..i + 1] + s[i + 1..];
    assert t == t[..i + 1] + s[i + 1..];
    assert t[..i] == s[..i];
    SumAppend(s[..i + 1], s[i + 1..]);
    SumAppend(t[..i + 1], s[i + 1..]);
  }

  /** The two's complement checksum of a sum: what brings it to zero modulo 256. */
  function Complement(sum: nat): (c: byte)
    ensures (sum + c) % 0x100 == 0
  {
    var q, r := sum / 0x100, sum % 0x100;
    assert sum + (0x100 - r) == 0x100 * (q + 1);
    (0x100 - r) % 0x100
  }

  /** A uint32 accumulator may wrap: the low byte of the sum does not notice. */
  lemma WrapHarmless(n: nat)
    ensures n % 0x1_0000_0000 % 0x100 == n % 0x100
  {
    var q, r := n / 0x1_0000_0000, n % 0x1_0000_0000;
    assert n == 0x100 * (0x100_0000 * q) + r;
  }

  lemma WrapAdds(n: nat, b: byte)
    ensures (n % 0x1_0000_0000 + b as int) % 0x1_0000_0000 == (n + b as int) % 0x1_0000_0000
  {
    var q, r := n / 0x1_0000_0000, n % 0x1_0000_0000;
    assert n + b as int == 0x1_0000_0000 * q + (r + b as int);
  }

  // ----- exclusive or -----

  /** Exclusive or of the `n` low bits, one bit at a time. */
  function XorBits(n: nat, a: nat, b: nat): nat {
    if n == 0 then 0 else (a + b) % 2 + 2 * XorBits(n - 1, a / 2, b / 2)
  }

  function Pow2(n: nat): nat {
    if n == 0 then 1 else 2 * Pow2(n - 1)
  }

  lemma {:induction false} XorBitsRange(n: nat, a: nat, b: nat)
    ensures XorBits(n, a, b) < Pow2(n)
  {
    if n > 0 {
      XorBitsRange(n - 1, a / 2, b / 2);
    }
  }

  lemma {:induction false} XorBitsTwice(n: nat, a: nat, b: nat)
    requires a < Pow2(n)
    ensures XorBits(n, XorBits(n, a, b), b) == a
  {
    if n > 0 {
      XorBitsTwice(n - 1, a / 2, b / 2);
      Halves(XorBits(n - 1, a / 2, b / 2), (a + b) % 2);
      LowBitTwice(a, b);
    }
  }

  lemma Halves(q: nat, r: nat)
    requires r < 2
    ensures (2 * q + r) / 2 == q && (2 * q + r) % 2 == r
  {
  }

  lemma LowBitTwice(a: nat, b: nat)
    ensures forall x: nat :: x % 2 == (a + b) % 2 ==> (x + b) % 2 == a % 2
  {
  }

  lemma Pow2Of8()
    ensures Pow2(8) == 0x100
  {
    assert Pow2(4) == 16;
  }

  function Xor(a: byte, b: byte): byte {
    XorBitsRange(8, a, b);
    Pow2Of8();
    XorBits(8, a, b)
  }

  lemma XorTwice(a: byte, b: byte)
    ensures Xor(Xor(a, b), b) == a
  {
    Pow2Of8();
    XorBitsTwice(8, a, b);
  }

  /** Bit i of a number. */
  function Bit(x: nat, i: nat): nat
    decreases i
  {
    if i == 0 then x % 2 else Bit(x / 2, i - 1)
  }

  lemma {:induction false} XorBitsAre(n: nat, a: nat, b: nat, i: nat)
    requires i < n
    ensures Bit(XorBits(n, a, b), i) == (if Bit(a, i) == Bit(b, i) then 0 else 1)
  {
    Halves(XorBits(n - 1, a / 2, b / 2), (a + b) % 2);
    if i > 0 {
      XorBitsAre(n - 1, a / 2, b / 2, i - 1);
    }
  }

  /** A bit of an exclusive or is set exactly when it is set in one of the two. */
  lemma XorIsBitwise(a: byte, b: byte, i: nat)
    requires i < 8
    ensures Bit(Xor(a, b), i) == (if Bit(a, i) == Bit(b, i) then 0 else 1)
  {
    XorBitsAre(8, a, b, i);
  }

  function XorBytes(a: Bytes, b: Bytes): (r: Bytes)
    requires |a| == |b|
    ensures |r| == |a|
  {
    seq(|a|, i requires 0 <= i < |a| => Xor(a[i], b[i]))
  }

  lemma XorBytesTwice(a: Bytes, b: Bytes)
    requires |a| == |b|
    ensures XorBytes(XorBytes(a, b), b) == a
  {
    forall i | 0 <= i < |a| ensures XorBytes(XorBytes(a, b), b)[i] == a[i] {
      XorTwice(a[i], b[i]);
    }
  }

  // ----- slices -----

  function Repeat(n: nat, b: byte): (r: Bytes)
    ensures |r| == n
  {
    seq(n, _ => b)
  }


  /** Two concatenations that are equal, cut at the same place. */
  lemma CutAlike(a: Bytes, x: Bytes, b: Bytes, y: Bytes)
    requires |a| == |b| && a + x == b + y
    ensures a == b && x == y
  {
    assert a == (a + x)[..|a|] && b == (b + y)[..|a|];
    assert x == (a + x)[|a|..] && y == (b + y)[|a|..];
  }

  /** A field of a concatenation, read back at its offset. */
  lemma SliceOf(pre: Bytes, mid: Bytes, post: Bytes)
    ensures (pre + mid + post)[|pre|..|pre| + |mid|] == mid
    ensures (pre + mid + post)[|pre| + |mid|..] == post
  {
  }
}
