/** Sixteen-octet address keys and the key range of a CIDR prefix. */
module IpKeys {
  import opened Octets
  import Lex
  import opened Division

  type Key = k: Bytes | |k| == 16 witness [0, 0, 0, 0, 0, 0, 0, 0, 0, 0, 0, 0, 0, 0, 0, 0]

  type Quad = q: Bytes | |q| == 4 witness [0, 0, 0, 0]

  /** A parsed prefix; the address may still have host bits set. */
  datatype Prefix = V4(quad: Quad, len4: nat) | V6(addr: Key, len6: nat)
  {
    predicate Valid() {
      match this
      case V4(_, n) => n <= 32
      case V6(_, n) => n <= 128
    }

    /** The address in its sixteen-octet form. */
    function Key16(): Key {
      match this
      case V4(q, _) => MAPPED + q
      case V6(a, _) => a
    }

    /** The number of leading bits of a key that the prefix fixes. */
    function Bits(): nat {
      match this
      case V4(_, n) => n + 96
      case V6(_, n) => n
    }
  }

  /** The first twelve octets of an IPv4-mapped address. */
  const MAPPED: Bytes := [0, 0, 0, 0, 0, 0, 0, 0, 0, 0, 255, 255]

  /** Whether an address is stored as family 4: in its own form or mapped. */
  predicate IsV4(k: Key) {
    k[..12] == MAPPED
  }

  function Pow2(n: nat): (p: int)
    requires n <= 8
    ensures 1 <= p <= 256
  {
    match n
    case 0 => 1
    case 1 => 2
    case 2 => 4
    case 3 => 8
    case 4 => 16
    case 5 => 32
    case 6 => 64
    case 7 => 128
    case 8 => 256
  }

  lemma Pow2Doubles(n: nat)
    requires n < 8
    ensures Pow2(n + 1) == 2 * Pow2(n)
  {
  }

  /** The bits of an octet numbered from the most significant, 0 to 7. */
  function OctetBit(b: Byte, j: nat): (bit: int)
    requires j < 8
  {
    b / Pow2(7 - j) % 2
  }

  function Bit(k: Key, i: nat): (bit: int)
    requires i < 128
  {
    OctetBit(k[i / 8], i % 8)
  }

  /** `b | 1 << (7 - j)` */
  function SetBit(b: Byte, j: nat): (r: Byte)
    requires j < 8
    ensures OctetBit(r, j) == 1
    ensures forall i | 0 <= i < 8 && i != j :: OctetBit(r, i) == OctetBit(b, i)
  {
    if OctetBit(b, j) == 1 then b
    else
      SetBitFacts(b, j);
      b + Pow2(7 - j)
  }

  lemma SetBitFacts(b: Byte, j: nat)
    requires j < 8 && OctetBit(b, j) == 0
    ensures b + Pow2(7 - j) < 256
    ensures OctetBit(b + Pow2(7 - j), j) == 1
    ensures forall i | 0 <= i < 8 && i != j :: OctetBit(b + Pow2(7 - j), i) == OctetBit(b, i)
  {
    NoOverflow(b, j);
    forall i | 0 <= i < 8 && i != j
      ensures OctetBit(b + Pow2(7 - j), i) == OctetBit(b, i)
    {
      if i < j {
        TopKept(b, j, i);
      } else {
        LowKept(b, j, i);
      }
    }
  }

  lemma NoOverflow(b: Byte, j: nat)
    requires j < 8 && OctetBit(b, j) == 0
    ensures b + Pow2(7 - j) < 256 && OctetBit(b + Pow2(7 - j), j) == 1
    ensures (b + Pow2(7 - j)) / Pow2(8 - j) == b / Pow2(8 - j)
  {
    var p := Pow2(7 - j);
    Pow2Doubles(7 - j);
    HalveTwice(b, p);
    NoCarry(b, p, b / p / 2, b % p);
    Fits(p, b / p / 2, b % p);
  }

  lemma HalveTwice(b: int, p: int)
    requires p > 0 && b / p % 2 == 0
    ensures b == b / p / 2 * (2 * p) + b % p
  {
    var h := b / p / 2;
    assert b / p == 2 * h;
    assert b == b / p * p + b % p;
    Regroup(h, p);
  }

  lemma Regroup(h: int, p: int)
    ensures 2 * h * p == h * (2 * p) && (2 * h + 1) * p == h * (2 * p) + p
  {
  }

  lemma NoCarry(b: int, p: int, h: int, r: int)
    requires 0 <= r < p && b == h * (2 * p) + r
    ensures (b + p) / p == 2 * h + 1 && (b + p) / (2 * p) == h && b / (2 * p) == h
  {
    Regroup(h, p);
    DivIs(b + p, p, 2 * h + 1, r);
    DivIs(b, 2 * p, h, r);
    DivIs(b + p, 2 * p, h, r + p);
  }

  lemma Fits(p: int, h: int, r: int)
    requires p in {1, 2, 4, 8, 16, 32, 64, 128}
    requires 0 <= r < p && 0 <= h * (2 * p) + r < 256
    ensures h * (2 * p) + r + p < 256
  {
  }

  lemma TopKept(b: Byte, j: nat, i: nat)
    requires i < j < 8 && OctetBit(b, j) == 0 && b + Pow2(7 - j) < 256
    ensures OctetBit(b + Pow2(7 - j), i) == OctetBit(b, i)
  {
    NoOverflow(b, j);
    SameAbove(b, b + Pow2(7 - j), j, i);
  }

  lemma {:induction false} SameAbove(a: Byte, b: Byte, j: nat, i: nat)
    requires i < j <= 8 && a / Pow2(8 - j) == b / Pow2(8 - j)
    ensures OctetBit(a, i) == OctetBit(b, i)
  {
    TopSplits(a, j);
    TopSplits(b, j);
    if i < j - 1 {
      SameAbove(a, b, j - 1, i);
    }
  }

  lemma LowKept(b: Byte, j: nat, i: nat)
    requires j < i < 8 && b + Pow2(7 - j) < 256
    ensures OctetBit(b + Pow2(7 - j), i) == OctetBit(b, i)
  {
    var p := Pow2(7 - i);
    var m := Pow2(7 - j) / (2 * p);
    assert Pow2(7 - j) == m * (2 * p);
    AddEven(b, m, p);
  }

  lemma AddEven(b: int, m: int, p: int)
    requires p > 0
    ensures (b + m * (2 * p)) / p % 2 == b / p % 2
  {
    var q, r := b / p, b % p;
    assert b == q * p + r;
    assert (q + 2 * m) * p == q * p + m * (2 * p);
    DivIs(b + m * (2 * p), p, q + 2 * m, r);
  }

  /** An octet is determined by its bits; so is its leading part. */
  lemma {:induction false} TopBits(a: Byte, b: Byte, r: nat)
    requires r <= 8
    ensures (forall j | 0 <= j < r :: OctetBit(a, j) == OctetBit(b, j)) <==> a / Pow2(8 - r) == b / Pow2(8 - r)
  {
    if r > 0 {
      TopBits(a, b, r - 1);
      TopSplits(a, r);
      TopSplits(b, r);
      assert (forall j | 0 <= j < r :: OctetBit(a, j) == OctetBit(b, j)) <==>
             && (forall j | 0 <= j < r - 1 :: OctetBit(a, j) == OctetBit(b, j))
             && OctetBit(a, r - 1) == OctetBit(b, r - 1);
    }
  }

  lemma TopSplits(a: Byte, r: nat)
    requires 0 < r <= 8
    ensures a / Pow2(8 - r) == 2 * (a / Pow2(9 - r)) + OctetBit(a, r - 1)
  {
  }

  /** Keys compare by their first differing octet. */
  lemma {:induction false} DecidedAt(a: seq<int>, b: seq<int>, q: nat)
    requires q < |a| && q < |b| && a[..q] == b[..q] && a[q] < b[q]
    ensures Lex.Less(a, b)
  {
    if q > 0 {
      assert a[0] == a[..q][0] && b[0] == b[..q][0];
      assert a[1..][..q - 1] == a[..q][1..] && b[1..][..q - 1] == b[..q][1..];
      DecidedAt(a[1..], b[1..], q - 1);
    }
  }

  ghost predicate SameBits(a: Key, b: Key, n: nat)
    requires n <= 128
  {
    forall i | 0 <= i < n :: Bit(a, i) == Bit(b, i)
  }

  lemma SameOctet(a: Key, b: Key, n: nat, j: nat)
    requires n <= 128 && SameBits(a, b, n) && 8 * (j + 1) <= n
    ensures a[j] == b[j]
  {
    forall t | 0 <= t < 8
      ensures OctetBit(a[j], t) == OctetBit(b[j], t)
    {
      assert Bit(a, 8 * j + t) == Bit(b, 8 * j + t);
    }
    TopBits(a[j], b[j], 8);
  }

  lemma SameOctets(a: Key, b: Key, n: nat)
    requires n <= 128 && SameBits(a, b, n)
    ensures a[..n / 8] == b[..n / 8]
  {
    forall j | 0 <= j < n / 8
      ensures a[j] == b[j]
    {
      SameOctet(a, b, n, j);
    }
  }

  lemma OctetDecides(a: Byte, b: Byte, r: nat)
    requires r < 8 && OctetBit(a, r) < OctetBit(b, r)
    requires forall t | 0 <= t < r :: OctetBit(a, t) == OctetBit(b, t)
    ensures a < b
  {
    TopBits(a, b, r);
    TopSplits(a, r + 1);
    TopSplits(b, r + 1);
  }

  lemma BitDecides(a: Key, b: Key, i: nat)
    requires i < 128 && SameBits(a, b, i) && Bit(a, i) < Bit(b, i)
    ensures Lex.Less(a, b)
  {
    var q, r := i / 8, i % 8;
    forall t | 0 <= t < r
      ensures OctetBit(a[q], t) == OctetBit(b[q], t)
    {
      assert Bit(a, 8 * q + t) == Bit(b, 8 * q + t);
    }
    OctetDecides(a[q], b[q], r);
    SameOctets(a, b, i);
    DecidedAt(a, b, q);
  }

  lemma {:induction false} FirstDifference(a: Key, b: Key, n: nat) returns (i: nat)
    requires n <= 128 && !SameBits(a, b, n)
    ensures i < n && SameBits(a, b, i) && Bit(a, i) != Bit(b, i)
  {
    if SameBits(a, b, n - 1) {
      i := n - 1;
    } else {
      i := FirstDifference(a, b, n - 1);
    }
  }

  /** The octet with only its first `r` bits kept. */
  function MaskOctet(b: Byte, r: nat): (m: Byte)
    requires r <= 8
    ensures forall t | 0 <= t < 8 :: OctetBit(m, t) == if t < r then OctetBit(b, t) else 0
  {
    MaskOctetFacts(b, r);
    b / Pow2(8 - r) * Pow2(8 - r)
  }

  lemma MaskOctetFacts(b: Byte, r: nat)
    requires r <= 8
    ensures 0 <= b / Pow2(8 - r) * Pow2(8 - r) < 256
    ensures forall t | 0 <= t < 8 ::
              OctetBit(b / Pow2(8 - r) * Pow2(8 - r), t) == if t < r then OctetBit(b, t) else 0
  {
    var p := Pow2(8 - r);
    var m := b / p * p;
    assert m == b - b % p;
    assert 0 <= m < 256 by {
      assert b == m + b % p;
      NonNegative(b / p, p);
    }
    DivIs(m, p, b / p, 0);
    TopBits(m, b, r);
    forall t | r <= t < 8
      ensures OctetBit(m, t) == 0
    {
      LowCleared(b / p, r, t);
    }
  }

  lemma LowCleared(q: int, r: nat, t: nat)
    requires r <= t < 8
    ensures q * Pow2(8 - r) / Pow2(7 - t) % 2 == 0
  {
    var d := Pow2(7 - t);
    var c := Pow2(8 - r) / (2 * d);
    assert Pow2(8 - r) == c * (2 * d);
    Reassociate(q, c, 2 * d);
    AddEven(0, q * c, d);
  }

  lemma Reassociate(x: int, y: int, z: int)
    ensures x * (y * z) == x * y * z
  {
  }

  lemma NonNegative(x: int, y: int)
    requires x >= 0 && y > 0
    ensures x * y >= 0
  {
  }

  /** How many of octet `j`'s bits are among the first `n` of the key. */
  function KeptBits(n: nat, j: nat): (r: nat)
    ensures r <= 8
  {
    if 8 * (j + 1) <= n then 8 else if 8 * j >= n then 0 else n - 8 * j
  }

  /** `Prefix.Masked`: the address with every bit from `n` on cleared. */
  function Masked(a: Key, n: nat): (m: Key)
    requires n <= 128
    ensures SameBits(m, a, n)
    ensures forall i | n <= i < 128 :: Bit(m, i) == 0
  {
    var m := seq(16, j requires 0 <= j < 16 => MaskOctet(a[j], KeptBits(n, j)));
    assert forall i | 0 <= i < 128 ::
      Bit(m, i) == OctetBit(MaskOctet(a[i / 8], KeptBits(n, i / 8)), i % 8);
    m
  }

  predicate InRange(lo: Key, hi: Key, k: Key) {
    Lex.Leq(lo, k) && Lex.Leq(k, hi)
  }

  ghost predicate Bounds(lo: Key, hi: Key, a: Key, n: nat)
    requires n <= 128
  {
    SameBits(lo, a, n) && SameBits(hi, a, n) &&
    forall i | n <= i < 128 :: Bit(lo, i) == 0 && Bit(hi, i) == 1
  }

  /** The keys between the bounds are exactly those that agree with the
      address on every prefix bit. */
  lemma RangeIsPrefix(lo: Key, hi: Key, a: Key, n: nat, k: Key)
    requires n <= 128 && Bounds(lo, hi, a, n)
    ensures InRange(lo, hi, k) <==> SameBits(k, a, n)
  {
    if SameBits(k, a, n) {
      assert Lex.Leq(lo, k) by {
        if lo != k {
          NotSame(lo, k);
          var i := FirstDifference(lo, k, 128);
          BitDecides(lo, k, i);
        }
      }
      assert Lex.Leq(k, hi) by {
        if k != hi {
          NotSame(k, hi);
          var i := FirstDifference(k, hi, 128);
          BitDecides(k, hi, i);
        }
      }
    } else {
      var i := FirstDifference(k, a, n);
      assert Bit(lo, i) == Bit(a, i) && Bit(hi, i) == Bit(a, i);
      if Bit(k, i) < Bit(a, i) {
        BitDecides(k, lo, i);
        Lex.Asymmetric(k, lo);
      } else {
        BitDecides(hi, k, i);
        Lex.Asymmetric(hi, k);
      }
    }
  }

  lemma NotSame(a: Key, b: Key)
    requires a != b
    ensures !SameBits(a, b, 128)
  {
    assert a[..128 / 8] == a && b[..128 / 8] == b;
    if SameBits(a, b, 128) {
      SameOctets(a, b, 128);
      assert false;
    }
  }

  /** Whether the prefix contains the address: it agrees on all prefix bits. */
  ghost predicate Covers(p: Prefix, k: Key)
    requires p.Valid()
  {
    SameBits(k, p.Key16(), p.Bits())
  }

  /** The first `n` bits are the same, counted from the most significant bit of the first octet. */
  ghost predicate LeadingBitsAgree(a: Bytes, b: Bytes, n: nat)
    requires n <= 8 * |a| && n <= 8 * |b|
  {
    forall i | 0 <= i < n :: OctetBit(a[i / 8], i % 8) == OctetBit(b[i / 8], i % 8)
  }

  /** What a prefix stands for, in terms of the address and length it was written with: an IPv4
      prefix of length n covers the IPv4-mapped addresses whose last four octets begin with its
      first n bits, an IPv6 prefix the addresses that begin with its first n bits. */
  ghost predicate Under(p: Prefix, k: Key)
    requires p.Valid()
  {
    match p
    case V4(quad, n) =>
      && (forall i | 0 <= i < 10 :: k[i] == 0) && k[10] == 255 && k[11] == 255
      && LeadingBitsAgree(k[12..], quad, n)
    case V6(addr, n) => LeadingBitsAgree(k, addr, n)
  }

  /** Every length from 0 to that of the address is allowed: none leaves every address of the family under
      the prefix, the full one a single address. */
  lemma ExtremeLengths(quad: Quad, addr: Key, k: Key)
    ensures V4(quad, 0).Valid() && V4(quad, 32).Valid() && V6(addr, 0).Valid() && V6(addr, 128).Valid()
    ensures Under(V4(quad, 0), k) <==> k[..12] == [0, 0, 0, 0, 0, 0, 0, 0, 0, 0, 255, 255]
    ensures Under(V4(quad, 32), k) <==> k == [0, 0, 0, 0, 0, 0, 0, 0, 0, 0, 255, 255] + quad
    ensures Under(V6(addr, 0), k)
    ensures Under(V6(addr, 128), k) <==> k == addr
  {
    AllBits(k[12..], quad);
    AllBits(k, addr);
    assert k == k[..12] + k[12..];
  }

  lemma AllBits(a: Bytes, b: Bytes)
    requires |a| == |b|
    ensures LeadingBitsAgree(a, b, 8 * |a|) <==> a == b
  {
    if LeadingBitsAgree(a, b, 8 * |a|) {
      forall j | 0 <= j < |a| ensures a[j] == b[j] {
        forall i | 0 <= i < 8 ensures OctetBit(a[j], i) == OctetBit(b[j], i) {
          BitPlace(j, i);
          assert OctetBit(a[(8 * j + i) / 8], (8 * j + i) % 8) == OctetBit(b[(8 * j + i) / 8], (8 * j + i) % 8);
        }
        OctetIsItsBits(a[j]);
        OctetIsItsBits(b[j]);
      }
    }
  }

  lemma BitPlace(j: nat, i: nat)
    requires i < 8
    ensures (8 * j + i) / 8 == j && (8 * j + i) % 8 == i
  {
  }

  lemma CoversIsUnder(p: Prefix, k: Key)
    requires p.Valid()
    ensures Covers(p, k) <==> Under(p, k)
  {
    if p.V4? {
      FourCovers(p.quad, p.len4, k);
    } else {
      var a, n := p.addr, p.len6;
      assert p.Key16() == a && p.Bits() == n;
      forall i | 0 <= i < n
        ensures Bit(k, i) == OctetBit(k[i / 8], i % 8) && Bit(a, i) == OctetBit(a[i / 8], i % 8)
      {
      }
      assert Covers(p, k) ==> LeadingBitsAgree(k, a, n) by {
        if Covers(p, k) {
          assert forall i | 0 <= i < n :: Bit(k, i) == Bit(a, i);
        }
      }
    }
  }

  lemma FourCovers(quad: Quad, n: nat, k: Key)
    requires n <= 32
    ensures Covers(V4(quad, n), k) <==> IsV4(k) && LeadingBitsAgree(k[12..], quad, n)
    ensures IsV4(k) <==> (forall i | 0 <= i < 10 :: k[i] == 0) && k[10] == 255 && k[11] == 255
  {
    var a := V4(quad, n).Key16();
    MappedOctets(k);
    if Covers(V4(quad, n), k) {
      V4CoversMapped(V4(quad, n), k);
      forall i | 0 <= i < n
        ensures OctetBit(k[12..][i / 8], i % 8) == OctetBit(quad[i / 8], i % 8)
      {
        assert Bit(k, 96 + i) == Bit(a, 96 + i);
      }
    }
    if IsV4(k) && LeadingBitsAgree(k[12..], quad, n) {
      forall i | 0 <= i < n + 96
        ensures Bit(k, i) == Bit(a, i)
      {
        if i < 96 {
          assert k[i / 8] == k[..12][i / 8];
        } else {
          assert OctetBit(k[12..][(i - 96) / 8], (i - 96) % 8) == OctetBit(quad[(i - 96) / 8], (i - 96) % 8);
        }
      }
    }
  }

  lemma MappedOctets(k: Key)
    ensures IsV4(k) <==> (forall i | 0 <= i < 10 :: k[i] == 0) && k[10] == 255 && k[11] == 255
  {
    if IsV4(k) {
      forall i | 0 <= i < 12 ensures k[i] == MAPPED[i] {
        assert k[i] == k[..12][i];
      }
    }
    if (forall i | 0 <= i < 10 :: k[i] == 0) && k[10] == 255 && k[11] == 255 {
      assert k[..12] == MAPPED;
    }
  }

  /** The numbered bits are the octet's binary digits, the most significant first. */
  lemma OctetIsItsBits(b: Byte)
    ensures b == 128 * OctetBit(b, 0) + 64 * OctetBit(b, 1) + 32 * OctetBit(b, 2) + 16 * OctetBit(b, 3)
                 + 8 * OctetBit(b, 4) + 4 * OctetBit(b, 5) + 2 * OctetBit(b, 6) + OctetBit(b, 7)
    ensures forall j | 0 <= j < 8 :: 0 <= OctetBit(b, j) <= 1
  {
    TopSplits(b, 1);
    TopSplits(b, 2);
    TopSplits(b, 3);
    TopSplits(b, 4);
    TopSplits(b, 5);
    TopSplits(b, 6);
    TopSplits(b, 7);
    TopSplits(b, 8);
  }

  /** Sets every host bit of the upper bound, one at a time. */
  method PrefixRange(p: Prefix) returns (lo: Key, hi: Key)
    requires p.Valid()
    ensures forall k: Key :: InRange(lo, hi, k) <==> Under(p, k)
    ensures Bounds(lo, hi, p.Key16(), p.Bits())
    ensures forall k: Key :: InRange(lo, hi, k) <==> Covers(p, k)
  {
    var a, bits := p.Key16(), p.Bits();
    lo := Masked(a, bits);
    hi := lo;
    for i := bits to 128
      invariant SameBits(hi, lo, bits)
      invariant forall t | bits <= t < i :: Bit(hi, t) == 1
      invariant forall t | i <= t < 128 :: Bit(hi, t) == 0
    {
      var was := hi;
      hi := hi[i / 8 := SetBit(hi[i / 8], i % 8)];
      SetsOneBit(was, hi, i);
    }
    forall k: Key
      ensures InRange(lo, hi, k) <==> Covers(p, k)
      ensures Covers(p, k) <==> Under(p, k)
    {
      RangeIsPrefix(lo, hi, a, bits, k);
      CoversIsUnder(p, k);
    }
  }

  lemma SetsOneBit(was: Key, now: Key, i: nat)
    requires i < 128 && now == was[i / 8 := SetBit(was[i / 8], i % 8)]
    ensures Bit(now, i) == 1
    ensures forall t | 0 <= t < 128 && t != i :: Bit(now, t) == Bit(was, t)
  {
    forall t | 0 <= t < 128 && t != i
      ensures Bit(now, t) == Bit(was, t)
    {
      if t / 8 == i / 8 {
        assert t % 8 != i % 8;
      }
    }
  }

  /** The address part of ::ffff:0:0/96 as a key. */
  const MAPPED_ZERO: Key := MAPPED + [0, 0, 0, 0]

  /** A prefix reaches the IPv4-mapped block when the shorter of the two
      agrees with the other: something the prefix alone decides. */
  ghost predicate ReachesMapped(p: Prefix)
    requires p.Valid()
  {
    SameBits(p.Key16(), MAPPED_ZERO, if p.Bits() < 96 then p.Bits() else 96)
  }

  lemma MappedIsPrefix(k: Key)
    ensures IsV4(k) <==> SameBits(k, MAPPED_ZERO, 96)
  {
    assert MAPPED_ZERO[..12] == MAPPED;
    if SameBits(k, MAPPED_ZERO, 96) {
      SameOctets(k, MAPPED_ZERO, 96);
    }
    if IsV4(k) {
      forall i | 0 <= i < 96
        ensures Bit(k, i) == Bit(MAPPED_ZERO, i)
      {
        assert k[i / 8] == k[..12][i / 8] && MAPPED_ZERO[i / 8] == MAPPED_ZERO[..12][i / 8];
      }
    }
  }

  /** Both directions: the prefix covers some IPv4-mapped address exactly
      when it reaches the block, and the masked address or the block's first
      address is the witness. */
  lemma CoversSomeMapped(p: Prefix)
    requires p.Valid()
    ensures ReachesMapped(p) <==> exists k: Key :: Covers(p, k) && IsV4(k)
  {
    if ReachesMapped(p) {
      var k := if p.Bits() < 96 then MAPPED_ZERO else p.Key16();
      MappedIsPrefix(k);
      assert Covers(p, k);
    }
    forall k: Key | Covers(p, k) && IsV4(k)
      ensures ReachesMapped(p)
    {
      MappedIsPrefix(k);
    }
  }

  /** Every address a v4 prefix covers is IPv4-mapped. */
  lemma V4CoversMapped(p: Prefix, k: Key)
    requires p.Valid() && p.V4? && Covers(p, k)
    ensures IsV4(k)
  {
    SameOctets(k, p.Key16(), p.Bits());
    assert k[..12] == k[..p.Bits() / 8][..12];
    assert p.Key16()[..12] == p.Key16()[..p.Bits() / 8][..12];
    assert p.Key16()[..12] == MAPPED;
  }
}
