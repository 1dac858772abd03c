/** Base-36 numerals and the partition file names built from them. Integers are
    64-bit two's complement, as the indices are. */
module Base36 {
  import opened Hex
  import opened Wrappers

  const TWO63 := 0x8000_0000_0000_0000
  const TWO64 := 0x1_0000_0000_0000_0000

  /** Reduces to the signed 64-bit value the machine would hold. */
  function Wrap64(x: int): (w: int)
    ensures -TWO63 <= w < TWO63
    ensures -TWO63 <= x < TWO63 ==> w == x
  {
    (x + TWO63) % TWO64 - TWO63
  }

  // ---- the numeral ------------------------------------------------------------

  /** The reference: most significant digit first, no leading zero. */
  function Numeral(n: nat): (s: string)
    ensures |s| > 0
    ensures forall i :: 0 <= i < |s| ==> 0 <= DigitValue(s[i]) < 36
  {
    if n < 36 then [Digit(n)] else Numeral(n / 36) + [Digit(n % 36)]
  }

  function Pow36(k: nat): (p: nat)
    ensures p > 0
  {
    if k == 0 then 1 else 36 * Pow36(k - 1)
  }

  lemma ThirteenDigitsSuffice()
    ensures Pow36(13) > TWO63
  {
    assert Pow36(4) == 1679616;
    assert Pow36(8) == 1679616 * 1679616 by {
      assert Pow36(8) == 36 * 36 * 36 * 36 * Pow36(4);
    }
    assert Pow36(12) == 36 * 36 * 36 * 36 * Pow36(8);
    assert Pow36(13) == 36 * Pow36(12);
  }

  /** Fills a 13-byte buffer from the right while dividing. Thirteen bytes are always enough. */
  method EncodeBase36(n: int) returns (s: string)
    requires n < TWO63
    ensures s == Numeral(if n <= 0 then 0 else n)
    ensures |s| <= 13
  {
    if n <= 0 {
      return "0";
    }
    var buf := new char[13](_ => '0');
    var i, m := buf.Length, n;
    ghost var all := Numeral(n);
    ThirteenDigitsSuffice();
    while m > 0
      invariant 0 <= i <= 13 && 0 <= m < Pow36(i)
      invariant all == Leading(m) + buf[i..]
      decreases m
    {
      i := i - 1;
      ghost var rest := buf[i + 1..];
      var c := Digit(m % 36);
      buf[i] := c;
      assert buf[i..] == [c] + rest;
      LeadingStep(m, i, rest, c);
      m := m / 36;
    }
    s := buf[i..];
  }

  /** The digits of what is still to be divided. */
  function Leading(m: nat): (s: string) {
    if m == 0 then "" else Numeral(m)
  }

  lemma LeadingStep(m: nat, i: nat, rest: string, c: char)
    requires 0 < m < Pow36(i + 1) && c == Digit(m % 36)
    ensures m / 36 < Pow36(i)
    ensures Leading(m) + rest == Leading(m / 36) + ([c] + rest)
  {
    assert Leading(m) == Leading(m / 36) + [c];
  }

  // ---- decoding -----------------------------------------------------------------

  predicate IsNumeral(s: string) {
    s != "" && AllDigits(s)
  }

  /** What the accumulator holds after the digits of `s`, wrapping as it goes. */
  function Accumulate(s: string): (n: int)
    requires AllDigits(s)
    ensures -TWO63 <= n < TWO63
  {
    if s == "" then 0
    else Wrap64(Accumulate(s[..|s| - 1]) * 36 + DigitValue(s[|s| - 1]))
  }

  function Decoded(s: string): (n: Option<int>) {
    if IsNumeral(s) then Some(Accumulate(s)) else None
  }

  method DecodeBase36(s: string) returns (r: Option<int>)
    ensures r == Decoded(s)
  {
    if s == "" {
      return None;
    }
    var n := 0;
    for i := 0 to |s|
      invariant forall j :: 0 <= j < i ==> DigitValue(s[j]) >= 0
      invariant n == Accumulate(s[..i])
    {
      if DigitValue(s[i]) < 0 {
        return None;
      }
      assert s[..i + 1][..i] == s[..i];
      n := Wrap64(n * 36 + DigitValue(s[i]));
    }
    assert s[..|s|] == s;
    r := Some(n);
  }

  predicate AllDigits(s: string) {
    forall i :: 0 <= i < |s| ==> DigitValue(s[i]) >= 0
  }

  /** The number a digit string stands for, with no width limit. */
  function Value(s: string): (n: int)
    requires AllDigits(s)
  {
    if s == "" then 0 else Value(s[..|s| - 1]) * 36 + DigitValue(s[|s| - 1])
  }

  lemma {:induction false} NumeralFacts(n: nat)
    ensures AllDigits(Numeral(n)) && Numeral(n) != "" && Value(Numeral(n)) == n
  {
    var s := Numeral(n);
    if n < 36 {
      assert s[..0] == "";
      assert Value(s[..0]) == 0;
    } else {
      NumeralFacts(n / 36);
      assert s[..|s| - 1] == Numeral(n / 36);
      assert (n / 36) * 36 + n % 36 == n;
    }
  }

  /** Every partial value on the way is at most the number itself. */
  lemma {:induction false} PrefixAtMost(n: nat, k: nat)
    requires k <= |Numeral(n)|
    ensures AllDigits(Numeral(n)[..k]) && 0 <= Value(Numeral(n)[..k]) <= n
  {
    var s := Numeral(n);
    NumeralFacts(n);
    if k == |s| {
      assert s[..k] == s;
    } else if n < 36 {
      assert s[..k] == "";
    } else {
      assert s[..|s| - 1] == Numeral(n / 36);
      assert s[..k] == s[..|s| - 1][..k];
      PrefixAtMost(n / 36, k);
    }
  }

  /** Where no partial value leaves 63 bits, the accumulator never wraps. */
  lemma {:induction false} AccumulateIsValue(s: string)
    requires AllDigits(s)
    requires forall k | 0 <= k <= |s| :: AllDigits(s[..k]) && 0 <= Value(s[..k]) < TWO63
    ensures Accumulate(s) == Value(s)
  {
    assert s[..|s|] == s;
    if s != "" {
      var front := s[..|s| - 1];
      forall k | 0 <= k <= |front| ensures AllDigits(front[..k]) && 0 <= Value(front[..k]) < TWO63 {
        assert front[..k] == s[..k];
      }
      AccumulateIsValue(front);
    }
  }

  lemma WrapStep(a: int, d: int)
    ensures Wrap64(Wrap64(a) * 36 + d) == Wrap64(a * 36 + d)
  {
    WrapIsCongruent(a);
    var k := (a - Wrap64(a)) / 0x1_0000_0000_0000_0000;
    WrapShift(Wrap64(a) * 36 + d, 36 * k);
  }

  lemma WrapShift(x: int, m: int)
    ensures Wrap64(x + m * 0x1_0000_0000_0000_0000) == Wrap64(x)
  {
    var y := x + 0x8000_0000_0000_0000;
    assert (y + m * 0x1_0000_0000_0000_0000) % 0x1_0000_0000_0000_0000 == y % 0x1_0000_0000_0000_0000;
  }

  lemma WrapIsCongruent(x: int)
    ensures (x - Wrap64(x)) % 0x1_0000_0000_0000_0000 == 0
    ensures -0x8000_0000_0000_0000 <= Wrap64(x) < 0x8000_0000_0000_0000
  {
    assert Wrap64(x) == x - (x + TWO63) / TWO64 * TWO64;
  }

  /** However long the digit string, the accumulator holds its value modulo 2^64. */
  lemma {:induction false} AccumulateWraps(s: string)
    requires AllDigits(s)
    ensures Accumulate(s) == Wrap64(Value(s))
  {
    if s != "" {
      AccumulateWraps(s[..|s| - 1]);
      WrapStep(Value(s[..|s| - 1]), DigitValue(s[|s| - 1]));
    }
  }

  /** Decoding undoes encoding for every non-negative 64-bit index, and no partial value overflows:
      after each digit the accumulator holds the plain value of the digits so far. */
  lemma DecodeEncode(n: nat)
    requires n < TWO63
    ensures Decoded(Numeral(n)) == Some(n)
    ensures forall k | 0 <= k <= |Numeral(n)| ::
              && AllDigits(Numeral(n)[..k])
              && 0 <= Value(Numeral(n)[..k]) <= n
              && Accumulate(Numeral(n)[..k]) == Value(Numeral(n)[..k])
  {
    var s := Numeral(n);
    NumeralFacts(n);
    forall k | 0 <= k <= |s|
      ensures AllDigits(s[..k]) && 0 <= Value(s[..k]) <= n && Accumulate(s[..k]) == Value(s[..k])
    {
      PartialIsExact(n, k);
    }
    assert s[..|s|] == s;
  }

  lemma PartialIsExact(n: nat, k: nat)
    requires n < TWO63 && k <= |Numeral(n)|
    ensures AllDigits(Numeral(n)[..k]) && 0 <= Value(Numeral(n)[..k]) <= n
    ensures Accumulate(Numeral(n)[..k]) == Value(Numeral(n)[..k])
  {
    var s := Numeral(n)[..k];
    PrefixAtMost(n, k);
    forall j | 0 <= j <= |s| ensures AllDigits(s[..j]) && 0 <= Value(s[..j]) < TWO63 {
      PrefixAtMost(n, j);
      assert s[..j] == Numeral(n)[..j];
    }
    AccumulateIsValue(s);
  }

  // ---- file names -----------------------------------------------------------------

  /** A half-open interval of entry indices. */
  datatype Range = Range(start: int, end: int)

  function RangeName(first: nat, last: nat): (name: string) {
    Numeral(first) + "-" + Numeral(last) + ".binpb"
  }

  predicate HasSuffix(s: string, suffix: string) {
    |s| >= |suffix| && s[|s| - |suffix|..] == suffix
  }

  function TrimSuffix(s: string, suffix: string): (t: string) {
    if HasSuffix(s, suffix) then s[..|s| - |suffix|] else s
  }

  /** The first position of `c`, or the length when there is none. */
  function IndexOf(s: string, c: char): (i: nat)
    ensures i <= |s| && (i < |s| ==> s[i] == c)
    ensures forall j :: 0 <= j < i ==> s[j] != c
  {
    if s == "" || s[0] == c then 0 else 1 + IndexOf(s[1..], c)
  }

  function ParseRange(name: string): (r: Option<Range>) {
    ParsePlain(TrimSuffix(name, ".gz"))
  }

  function ParsePlain(n: string): (r: Option<Range>) {
    if !HasSuffix(n, ".binpb") then None
    else
      var stem := TrimSuffix(n, ".binpb");
      var dash := IndexOf(stem, '-');
      if dash == |stem| then None
      else
        var first, last := Decoded(stem[..dash]), Decoded(stem[dash + 1..]);
        if first.None? || last.None? || last.value < first.value then None
        else Some(Range(first.value, Wrap64(last.value + 1)))
  }

  lemma DashSplits(a: string, b: string)
    requires forall i :: 0 <= i < |a| ==> 0 <= DigitValue(a[i])
    ensures IndexOf(a + "-" + b, '-') == |a|
  {
    var s := a + "-" + b;
    assert s[|a|] == '-';
    assert forall i :: 0 <= i < |a| ==> s[i] == a[i] && s[i] != '-';
  }

  lemma SuffixTrimmed(stem: string, suffix: string)
    ensures HasSuffix(stem + suffix, suffix) && TrimSuffix(stem + suffix, suffix) == stem
  {
  }

  lemma PlainReadsBack(first: nat, last: nat)
    requires first <= last < TWO63
    ensures ParsePlain(RangeName(first, last)) == Some(Range(first, Wrap64(last + 1)))
  {
    var a, b := Numeral(first), Numeral(last);
    var stem := a + "-" + b;
    SuffixTrimmed(stem, ".binpb");
    DashSplits(a, b);
    assert stem[..|a|] == a && stem[|a| + 1..] == b;
    DecodeEncode(first);
    DecodeEncode(last);
  }

  lemma NameReadsBack(first: nat, last: nat)
    requires first <= last < TWO63
    ensures ParseRange(RangeName(first, last)) == Some(Range(first, Wrap64(last + 1)))
    ensures ParseRange(RangeName(first, last) + ".gz") == Some(Range(first, Wrap64(last + 1)))
  {
    var name := RangeName(first, last);
    PlainReadsBack(first, last);
    SuffixTrimmed(name, ".gz");
    assert name[|name| - 3..][2] == 'b' && ".gz"[2] == 'z';
  }

  /** The name written for first..last, gzipped or not, reads back as [first, last + 1) exactly
      when that exclusive end is itself a 64-bit index; at the last index it wraps. */
  lemma NameRoundTrip(first: nat, last: nat)
    requires first <= last < 0x8000_0000_0000_0000
    ensures ParseRange(RangeName(first, last)) == Some(Range(first, last + 1)) <==> last < 0x7FFF_FFFF_FFFF_FFFF
    ensures ParseRange(RangeName(first, last) + ".gz") == ParseRange(RangeName(first, last))
  {
    NameReadsBack(first, last);
  }

  /** Different runs get different names, so two files never fall on one path by accident. */
  lemma NameInjective(f1: nat, l1: nat, f2: nat, l2: nat)
    requires f1 <= l1 < TWO63 - 1 && f2 <= l2 < TWO63 - 1
    requires RangeName(f1, l1) == RangeName(f2, l2)
    ensures f1 == f2 && l1 == l2
  {
    NameRoundTrip(f1, l1);
    NameRoundTrip(f2, l2);
  }

}
