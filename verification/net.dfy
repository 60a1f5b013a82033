/**
 The part of Go's `net` package the filter relies on: addresses, networks,
 network containment and the two parsers.

 Addresses are kept in the canonical form Go's `IP.String` prints: every
 address that `IP.To4` accepts (a plain IPv4 address or an IPv4-mapped
 IPv6 address) is a `V4` address of four bytes, every other one a `V6`
 address of sixteen. `IP.String` is injective on canonical addresses, so the
 model keys the exact-address table on the address itself.
 */
module Net {
  import opened Wrappers

  /** One byte of an address (Go's `byte`). */
  type Byte = x: int | 0 <= x < 256

  datatype Family = V4 | V6

  /** Number of bytes of an address of the family. */
  function ByteLen(family: Family): nat {
    if family == V4 then 4 else 16
  }

  /** Number of bits of an address of the family (32 or 128). */
  function Width(family: Family): nat {
    8 * ByteLen(family)
  }

  /** The sixteen-byte IPv4-mapped form `::ffff:a.b.c.d`, which `IP.To4` turns into four bytes. */
  predicate V4Mapped(bytes: seq<Byte>) {
    && |bytes| == 16
    && (forall i | 0 <= i < 10 :: bytes[i] == 0)
    && bytes[10] == 0xFF
    && bytes[11] == 0xFF
  }

  /** Right length for the family, and no IPv6 value that Go would treat as IPv4. */
  predicate Canonical(family: Family, bytes: seq<Byte>) {
    |bytes| == ByteLen(family) && (family == V6 ==> !V4Mapped(bytes))
  }

  datatype RawIP = RawIP(family: Family, bytes: seq<Byte>)

  /** A parsed address (Go's non-nil `net.IP`) in canonical form. */
  type IP = a: RawIP | Canonical(a.family, a.bytes) witness RawIP(V4, [0, 0, 0, 0])

  datatype RawIPNet = RawIPNet(family: Family, base: seq<Byte>, prefix: nat)

  /**
   A network as `IPNet.Contains` sees it: network number, family and the
   number of leading one bits of the mask. An IPv6 network whose number is
   IPv4-mapped is compared as IPv4 by Go, so it is a `V4` network here.
   */
  type IPNet = n: RawIPNet | Canonical(n.family, n.base) && n.prefix <= Width(n.family)
    witness RawIPNet(V4, [0, 0, 0, 0], 0)

  /** What `net.ParseCIDR` returns on success: the address as written and its network. */
  datatype Cidr = Cidr(ip: IP, network: IPNet)

  /**
   The two parsers of Go's standard library, which this model does not
   define: `parseIP` is `net.ParseIP` (None for `nil`), `parseCIDR` is
   `net.ParseCIDR` (None for a non-nil error).
   */
  datatype Parsers = Parsers(parseIP: string -> Option<IP>, parseCIDR: string -> Option<Cidr>)

  /** `IPMask.Size` reports `ones == bits`: the network holds a single address. */
  predicate SingleHost(n: IPNet) {
    n.prefix == Width(n.family)
  }

  /** How many of the `prefix` leading mask bits fall into byte `i`. */
  function OnesInByte(prefix: nat, i: nat): (ones: nat)
    ensures ones <= 8
  {
    if prefix <= 8 * i then 0 else if prefix - 8 * i >= 8 then 8 else prefix - 8 * i
  }

  /**
   `2^(8 - ones)`, the value of the lowest bit that a mask byte with `ones`
   leading one bits keeps. Masking a byte by `^(0xff >> ones)`, the byte
   `net.CIDRMask` writes, clears exactly the bits worth less than this.
   */
  function MaskUnit(ones: nat): (d: nat)
    requires ones <= 8
    ensures d >= 1
  {
    match ones
    case 0 => 256
    case 1 => 128
    case 2 => 64
    case 3 => 32
    case 4 => 16
    case 5 => 8
    case 6 => 4
    case 7 => 2
    case _ => 1
  }

  /** `x & ^(0xff >> ones)`: the byte with all but its `ones` leading bits cleared. */
  function MaskBy(x: Byte, ones: nat): int
    requires ones <= 8
  {
    x - x % MaskUnit(ones)
  }

  /** `IPNet.Contains`: same family and equal bytes under the mask. */
  predicate Contains(n: IPNet, a: IP) {
    && a.family == n.family
    && forall i | 0 <= i < |a.bytes| ::
         MaskBy(a.bytes[i], OnesInByte(n.prefix, i)) == MaskBy(n.base[i], OnesInByte(n.prefix, i))
  }

  /** Bit `j` of a byte, bit 0 being the most significant. */
  predicate ByteBit(x: Byte, j: nat)
    requires j < 8
  {
    x / MaskUnit(j + 1) % 2 == 1
  }

  /** Bit `k` of a byte string, most significant bit of the first byte first. */
  predicate Bit(bytes: seq<Byte>, k: nat)
    requires k < 8 * |bytes|
  {
    ByteBit(bytes[k / 8], k % 8)
  }

  /** The textbook meaning of a CIDR prefix: the first `prefix` bits agree. */
  predicate PrefixAgrees(n: IPNet, a: IP) {
    && a.family == n.family
    && forall k | 0 <= k < n.prefix :: Bit(a.bytes, k) == Bit(n.base, k)
  }

  /** The two bytes agree once both are masked by `ones` leading one bits. */
  predicate MaskedEqual(x: Byte, y: Byte, ones: nat)
    requires ones <= 8
  {
    MaskBy(x, ones) == MaskBy(y, ones)
  }

  /** The two bytes agree on their first `ones` bits. */
  predicate TopBitsAgree(x: Byte, y: Byte, ones: nat)
    requires ones <= 8
  {
    forall j | 0 <= j < ones :: ByteBit(x, j) == ByteBit(y, j)
  }

  /** A byte masked by its `ones` leading bits is determined by exactly those bits. */
  lemma {:induction false} MaskedByteIffTopBits(x: Byte, y: Byte, ones: nat)
    requires ones <= 8
    ensures MaskedEqual(x, y, ones) <==> TopBitsAgree(x, y, ones)
  {
    if ones > 0 {
      MaskedByteIffTopBits(x, y, ones - 1);
      MaskStep(x, y, ones);
      if TopBitsAgree(x, y, ones - 1) && ByteBit(x, ones - 1) == ByteBit(y, ones - 1) {
        forall j | 0 <= j < ones
          ensures ByteBit(x, j) == ByteBit(y, j)
        {
          if j < ones - 1 {
            assert TopBitsAgree(x, y, ones - 1);
          }
        }
      }
    }
  }

  /** Widening the mask by one bit adds exactly that bit to the comparison. */
  lemma MaskStep(x: Byte, y: Byte, ones: nat)
    requires 0 < ones <= 8
    ensures MaskedEqual(x, y, ones)
        <==> MaskedEqual(x, y, ones - 1) && ByteBit(x, ones - 1) == ByteBit(y, ones - 1)
  {
    var d := MaskUnit(ones);
    assert MaskUnit(ones - 1) == 2 * d;
    ClearedIsMultiple(x, d);
    ClearedIsMultiple(y, d);
    ClearedIsMultiple(x, 2 * d);
    ClearedIsMultiple(y, 2 * d);
    HalveQuotient(x, d);
    HalveQuotient(y, d);
    Cancel(d, x / d, y / d);
    Cancel(2 * d, x / d / 2, y / d / 2);
  }

  /** Clearing the remainder modulo `d` leaves `d` times the quotient. */
  lemma ClearedIsMultiple(x: int, d: int)
    requires x >= 0 && d > 0
    ensures x - x % d == d * (x / d)
  {
  }

  /** Dividing by `2 * d` is dividing by `d` and then by 2. */
  lemma HalveQuotient(x: int, d: int)
    requires x >= 0 && d > 0
    ensures x / (2 * d) == x / d / 2
  {
    var q, r := x / d, x % d;
    assert x == d * q + r;
    assert x == (2 * d) * (q / 2) + (d * (q % 2) + r);
    QuotientUnique(x, 2 * d, q / 2, d * (q % 2) + r);
  }

  /** The quotient is the only multiplier that leaves a remainder in `[0, m)`. */
  lemma QuotientUnique(x: int, m: int, a: int, b: int)
    requires m > 0 && x == m * a + b && 0 <= b < m
    ensures x / m == a
  {
    var k := a - x / m;
    assert x == m * (x / m) + x % m;
    assert m * k == x % m - b by {
      assert m * k == m * a - m * (x / m);
    }
    MultipleOutsideUnit(m, k);
  }

  /** A nonzero multiple of `m > 0` is at least `m` away from zero. */
  lemma MultipleOutsideUnit(m: int, k: int)
    requires m > 0
    ensures k >= 1 ==> m * k >= m
    ensures k <= -1 ==> m * k <= -m
  {
    if k >= 1 {
      assert m * k == m + m * (k - 1);
      assert m * (k - 1) >= 0;
    } else if k <= -1 {
      assert m * k == -m - m * (-k - 1);
      assert m * (-k - 1) >= 0;
    }
  }

  lemma Cancel(d: int, a: int, b: int)
    requires d > 0
    ensures d * a == d * b <==> a == b
  {
    if a != b {
      assert d * a - d * b == d * (a - b);
    }
  }

  /**
   `IPNet.Contains` is the textbook prefix test: an address is in a network
   exactly when it has the network's family and its first `prefix` bits
   are the network's.
   */
  lemma ContainsIffPrefixAgrees(n: IPNet, a: IP)
    ensures Contains(n, a) <==> PrefixAgrees(n, a)
  {
    if Contains(n, a) {
      ContainsGivesPrefix(n, a);
    }
    if PrefixAgrees(n, a) {
      PrefixGivesContains(n, a);
    }
  }

  lemma ContainsGivesPrefix(n: IPNet, a: IP)
    requires Contains(n, a)
    ensures PrefixAgrees(n, a)
  {
    forall k | 0 <= k < n.prefix
      ensures Bit(a.bytes, k) == Bit(n.base, k)
    {
      var i, j := k / 8, k % 8;
      assert i < |a.bytes|;
      assert MaskedEqual(a.bytes[i], n.base[i], OnesInByte(n.prefix, i));
      MaskedByteIffTopBits(a.bytes[i], n.base[i], OnesInByte(n.prefix, i));
      assert j < OnesInByte(n.prefix, i);
    }
  }

  lemma PrefixGivesContains(n: IPNet, a: IP)
    requires PrefixAgrees(n, a)
    ensures Contains(n, a)
  {
    forall i | 0 <= i < |a.bytes|
      ensures MaskBy(a.bytes[i], OnesInByte(n.prefix, i)) == MaskBy(n.base[i], OnesInByte(n.prefix, i))
    {
      var ones := OnesInByte(n.prefix, i);
      forall j | 0 <= j < ones
        ensures ByteBit(a.bytes[i], j) == ByteBit(n.base[i], j)
      {
        var k := 8 * i + j;
        assert k / 8 == i && k % 8 == j;
        assert k < n.prefix;
        assert Bit(a.bytes, k) == Bit(n.base, k);
      }
      MaskedByteIffTopBits(a.bytes[i], n.base[i], ones);
      assert MaskedEqual(a.bytes[i], n.base[i], ones);
    }
  }

  /**
   A prefix that ends on a byte boundary (/8, /16, /24, ...) compares whole
   bytes: the address is in the network exactly when it has the network's
   family and starts with the network's first `prefix / 8` bytes.
   */
  lemma ByteAlignedContains(n: IPNet, a: IP)
    requires n.prefix % 8 == 0
    ensures Contains(n, a) <==> a.family == n.family && a.bytes[..n.prefix / 8] == n.base[..n.prefix / 8]
  {
    if a.family == n.family {
      var whole := n.prefix / 8;
      forall i | 0 <= i < |a.bytes|
        ensures MaskBy(a.bytes[i], OnesInByte(n.prefix, i)) == if i < whole then a.bytes[i] else 0
        ensures MaskBy(n.base[i], OnesInByte(n.prefix, i)) == if i < whole then n.base[i] else 0
      {
        if i < whole {
          assert OnesInByte(n.prefix, i) == 8;
        } else {
          assert OnesInByte(n.prefix, i) == 0;
        }
      }
      if Contains(n, a) {
        forall i | 0 <= i < whole
          ensures a.bytes[i] == n.base[i]
        {
          assert MaskBy(a.bytes[i], OnesInByte(n.prefix, i)) == MaskBy(n.base[i], OnesInByte(n.prefix, i));
        }
      }
      if a.bytes[..whole] == n.base[..whole] {
        forall i | 0 <= i < whole
          ensures a.bytes[i] == n.base[i]
        {
          assert a.bytes[..whole][i] == n.base[..whole][i];
        }
      }
    }
  }

  /**
   A network whose mask has every bit set holds exactly one address, the
   one with its own bytes: this is why the filter files such a network
   under the exact-address table.
   */
  lemma SingleHostContainsOnlyBase(n: IPNet, a: IP)
    requires SingleHost(n)
    ensures Contains(n, a) <==> a.family == n.family && a.bytes == n.base
  {
    if a.family == n.family {
      forall i | 0 <= i < |a.bytes|
        ensures MaskBy(a.bytes[i], OnesInByte(n.prefix, i)) == a.bytes[i]
        ensures MaskBy(n.base[i], OnesInByte(n.prefix, i)) == n.base[i]
      {
        assert OnesInByte(n.prefix, i) == 8;
      }
    }
  }
}
