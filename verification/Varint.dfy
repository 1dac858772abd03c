/** SQLite's variable-length integers: up to eight octets of seven bits, or
    nine octets of which the last carries eight. */
module Varint {
  import opened Octets

  datatype Decoded = Decoded(value: int, size: nat)

  const TRUNCATED := Decoded(0, 0)

  /** `b & 0x7f` */
  function Low7(b: Byte): (t: int)
    ensures 0 <= t < 128
  {
    if b < 128 then b else b - 128
  }

  /** The decoder's loop from octet `i` with `v` gathered so far. */
  function DecodeFrom(b: Bytes, i: nat, v: int): (d: Decoded)
    decreases |b| - i
  {
    if i >= 9 || i >= |b| then TRUNCATED
    else if i == 8 then Decoded(256 * v + b[i], 9)
    else
      var v' := 128 * v + Low7(b[i]);
      if b[i] < 128 then Decoded(v', i + 1) else DecodeFrom(b, i + 1, v')
  }

  function Decode(b: Bytes): (d: Decoded) {
    DecodeFrom(b, 0, 0)
  }

  /** The gathered value never leaves 64 bits, and the count of octets never
      the input: no shift of the machine's word loses a bit. */
  lemma {:induction false} DecodeFits(b: Bytes, i: nat, v: int)
    requires i <= 8 && 0 <= v < Pow128(i)
    ensures 0 <= DecodeFrom(b, i, v).value < 0x1_0000_0000_0000_0000
    ensures DecodeFrom(b, i, v).size <= 9 && DecodeFrom(b, i, v).size <= |b|
    decreases 8 - i
  {
    if i < |b| && i < 8 {
      var w := 128 * v + Low7(b[i]);
      SeptetFits(i, v, Low7(b[i]), w);
      Step(b, i, v, w);
      if b[i] >= 128 {
        DecodeFits(b, i + 1, w);
      }
    } else if i < |b| {
      Pow128Values();
    }
  }

  /** One turn of the loop. */
  lemma Step(b: Bytes, i: nat, v: int, w: int)
    requires i < 8 && i < |b| && w == 128 * v + Low7(b[i])
    ensures DecodeFrom(b, i, v) == if b[i] < 128 then Decoded(w, i + 1) else DecodeFrom(b, i + 1, w)
  {
  }

  lemma SeptetFits(i: nat, v: int, t: int, w: int)
    requires i < 8 && 0 <= v < Pow128(i) && 0 <= t < 128 && w == 128 * v + t
    ensures 0 <= w < Pow128(i + 1)
    ensures w < 0x1_0000_0000_0000_0000
  {
    Pow128Values();
    Pow128Grows(i + 1, 8);
  }

  method SqliteVarint(b: Bytes) returns (v: int, n: nat)
    ensures Decoded(v, n) == Decode(b)
  {
    v, n := 0, 0;
    ghost var all := Decode(b);
    var i := 0;
    while i < 9 && i < |b|
      invariant 0 <= i <= 8
      invariant all == DecodeFrom(b, i, v)
    {
      if i == 8 {
        return 256 * v + b[i], 9;
      }
      var w := 128 * v + Low7(b[i]);
      Step(b, i, v, w);
      v := w;
      if b[i] < 128 {
        return v, i + 1;
      }
      i := i + 1;
    }
    return 0, 0;
  }

  function Pow128(k: nat): (p: int)
    ensures p >= 1
  {
    if k == 0 then 1 else 128 * Pow128(k - 1)
  }

  lemma Pow128Values()
    ensures Pow128(8) == 0x100_0000_0000_0000
  {
    assert Pow128(1) == 128;
    assert Pow128(2) == 0x4000;
    assert Pow128(4) == 0x1000_0000;
    assert Pow128(6) == 0x400_0000_0000;
  }

  lemma {:induction false} Pow128Grows(a: nat, b: nat)
    requires a <= b
    ensures Pow128(a) <= Pow128(b)
  {
    if a < b {
      Pow128Grows(a, b - 1);
    }
  }

  /** `k` octets of seven bits each, all marked as continued. */
  function Septets(u: int, k: nat): (bs: Bytes)
    requires 0 <= u < Pow128(k)
    ensures |bs| == k
  {
    if k == 0 then [] else Septets(u / 128, k - 1) + [128 + u % 128]
  }

  /** A value in `k` octets; more than needed means leading zero septets. */
  function EncodeShort(v: int, k: nat): (bs: Bytes)
    requires 1 <= k <= 8 && 0 <= v < Pow128(k)
    ensures |bs| == k
  {
    Septets(v / 128, k - 1) + [v % 128]
  }

  /** A value in nine octets. */
  function EncodeLong(v: int): (bs: Bytes)
    requires 0 <= v < 0x1_0000_0000_0000_0000
    ensures |bs| == 9
  {
    Pow128Values();
    Septets(v / 256, 8) + [v % 256]
  }

  /** Some encoding of the value, shortest or not. */
  predicate IsVarint(bs: Bytes, v: int) {
    || (1 <= |bs| <= 8 && 0 <= v < Pow128(|bs|) && bs == EncodeShort(v, |bs|))
    || (|bs| == 9 && 0 <= v < 0x1_0000_0000_0000_0000 && bs == EncodeLong(v))
  }

  lemma {:induction false} ThroughSeptets(b: Bytes, u: int, k: nat)
    requires k <= |b| && k <= 8 && 0 <= u < Pow128(k) && b[..k] == Septets(u, k)
    ensures Decode(b) == DecodeFrom(b, k, u)
  {
    if k > 0 {
      assert b[..k - 1] == b[..k][..k - 1] == Septets(u / 128, k - 1);
      ThroughSeptets(b, u / 128, k - 1);
      assert b[k - 1] == b[..k][k - 1] == 128 + u % 128;
      SeptetOf(u);
      Step(b, k - 1, u / 128, u);
    }
  }

  lemma SeptetOf(u: int)
    requires u >= 0
    ensures u == 128 * (u / 128) + Low7(128 + u % 128) && 0 <= u % 128 < 128
  {
  }

  /** Every encoding of every 64-bit value reads back, whatever follows. */
  lemma VarintRoundTrip(bs: Bytes, v: int, rest: Bytes)
    requires IsVarint(bs, v)
    ensures Decode(bs + rest) == Decoded(v, |bs|)
  {
    var k := |bs|;
    if k == 9 {
      Pow128Values();
      assert (bs + rest)[..8] == Septets(v / 256, 8);
      ThroughSeptets(bs + rest, v / 256, 8);
      assert (bs + rest)[8] == v % 256;
    } else {
      assert (bs + rest)[..k - 1] == Septets(v / 128, k - 1);
      ThroughSeptets(bs + rest, v / 128, k - 1);
      assert (bs + rest)[k - 1] == v % 128;
    }
  }

  /** The length of the shortest encoding. */
  function SizeFrom(v: int, k: nat): (n: nat)
    requires 1 <= k <= 9
    ensures k <= n <= 9
    ensures n < 9 ==> v < Pow128(n)
    decreases 9 - k
  {
    if k == 9 || v < Pow128(k) then k else SizeFrom(v, k + 1)
  }

  /** The shortest encoding, as a database writes it. */
  function Encode(v: int): (bs: Bytes)
    requires 0 <= v < 0x1_0000_0000_0000_0000
    ensures IsVarint(bs, v)
  {
    var n := SizeFrom(v, 1);
    if n < 9 then EncodeShort(v, n) else EncodeLong(v)
  }
}
