/** Shard ids, shard file names and the routing of a prefix to shards. */
module IpShards {
  import opened Octets
  import opened IpKeys
  import Hex

  /** Leading octets of an address that select its base shard: /8 or /16. */
  type Width = w: int | 1 <= w <= 2 witness 2

  const V6_SHARD_BIT: int := 0x1_0000

  function Offset(v4: bool): (off: nat) {
    if v4 then 12 else 0
  }

  function PrefixInt(k: Key, v4: bool, w: Width): (v: nat) {
    var off := Offset(v4);
    if w == 1 then k[off] else 256 * (k[off] as int) + k[off + 1]
  }

  method ShardPrefixInt(k: Key, v4: bool, w: Width) returns (v: int)
    ensures v == PrefixInt(k, v4, w)
  {
    var off := if v4 then 12 else 0;
    v := 0;
    for i := 0 to w
      invariant v == if i == 0 then 0 else if i == 1 then k[off] as int else 256 * (k[off] as int) + k[off + 1]
    {
      v := v * 256 + k[off + i];
    }
  }

  function Shards(w: Width): int {
    if w == 1 then 256 else 0x1_0000
  }

  function FamilyId(v4: bool, v: int): int {
    if v4 then v else v + V6_SHARD_BIT
  }

  function ShardId(k: Key, v4: bool, w: Width): int {
    FamilyId(v4, PrefixInt(k, v4, w))
  }

  /** `%d` of an octet. */
  function Decimal(n: Byte): (s: string)
    ensures |s| > 0 && forall i | 0 <= i < |s| :: s[i] != '_'
  {
    if n < 10 then [Hex.Digit(n)]
    else if n < 100 then [Hex.Digit(n / 10), Hex.Digit(n % 10)]
    else [Hex.Digit(n / 100), Hex.Digit(n / 10 % 10), Hex.Digit(n % 10)]
  }

  function OctetStr(v4: bool, n: Byte): string {
    if v4 then Decimal(n) else Hex.Octet(n)
  }

  /** The family bit is masked out of the id before its octets are printed. */
  function ShardName(id: int, w: Width): string {
    var v6 := id / V6_SHARD_BIT % 2 == 1;
    BaseName(!v6, if v6 then id - V6_SHARD_BIT else id, w)
  }

  function BaseName(v4: bool, v: int, w: Width): string {
    if v4 && w == 1 then "v4_" + Decimal(v % 256)
    else if v4 then "v4_" + Decimal(v / 256 % 256) + "_" + Decimal(v % 256)
    else if w == 1 then "v6_" + Hex.Octet(v % 256)
    else "v6_" + Hex.Octet(v / 256 % 256) + Hex.Octet(v % 256)
  }

  lemma NameOfId(v4: bool, v: int, w: Width)
    requires 0 <= v < Shards(w)
    ensures ShardName(FamilyId(v4, v), w) == BaseName(v4, v, w)
  {
    FamilyBit(v4, v);
  }

  lemma FamilyBit(v4: bool, v: int)
    requires 0 <= v < 0x1_0000
    ensures FamilyId(v4, v) / V6_SHARD_BIT % 2 == if v4 then 0 else 1
    ensures FamilyId(v4, v) == if v4 then v else v + 0x1_0000
  {
  }

  function FineName(base: string, k: Key, v4: bool, w: Width): string {
    base + "_" + OctetStr(v4, k[Offset(v4) + w])
  }

  /** The shard a staged row goes to, given the base shards that are split. */
  function ShardOf(k: Key, w: Width, split: set<string>): string {
    var v4 := IsV4(k);
    var base := ShardName(ShardId(k, v4, w), w);
    if base in split then FineName(base, k, v4, w) else base
  }

  /** The file names written out: the leading one or two octets of the address, in decimal for v4 and
      in hexadecimal for v6, and the next one where that base shard is split. */
  lemma ShardFileNames(k: Key, split: set<string>)
    ensures IsV4(k) ==>
              var base := "v4_" + Decimal(k[12]);
              ShardOf(k, 1, split) == if base in split then base + "_" + Decimal(k[13]) else base
    ensures IsV4(k) ==>
              var base := "v4_" + Decimal(k[12]) + "_" + Decimal(k[13]);
              ShardOf(k, 2, split) == if base in split then base + "_" + Decimal(k[14]) else base
    ensures !IsV4(k) ==>
              var base := "v6_" + Hex.Octet(k[0]);
              ShardOf(k, 1, split) == if base in split then base + "_" + Hex.Octet(k[1]) else base
    ensures !IsV4(k) ==>
              var base := "v6_" + Hex.Octet(k[0]) + Hex.Octet(k[1]);
              ShardOf(k, 2, split) == if base in split then base + "_" + Hex.Octet(k[2]) else base
  {
    BaseSpelled(k, 1);
    BaseSpelled(k, 2);
  }

  lemma BaseSpelled(k: Key, w: Width)
    ensures ShardName(ShardId(k, IsV4(k), w), w)
         == if IsV4(k)
            then (if w == 1 then "v4_" + Decimal(k[12]) else "v4_" + Decimal(k[12]) + "_" + Decimal(k[13]))
            else (if w == 1 then "v6_" + Hex.Octet(k[0]) else "v6_" + Hex.Octet(k[0]) + Hex.Octet(k[1]))
  {
    var v4 := IsV4(k);
    NameOfId(v4, PrefixInt(k, v4, w), w);
    PrefixOctets(k, v4);
  }

  lemma PrefixOctets(k: Key, v4: bool)
    ensures PrefixInt(k, v4, 1) % 256 == k[if v4 then 12 else 0]
    ensures PrefixInt(k, v4, 2) / 256 % 256 == k[if v4 then 12 else 0]
    ensures PrefixInt(k, v4, 2) % 256 == k[if v4 then 13 else 1]
  {
  }

  // ------------------------------------------------------------- pieces

  /** The part of one family's key space that a shard stands for. */
  datatype Piece = Piece(v4: bool, octets: Bytes)
  {
    ghost predicate Has(k: Key) {
      && IsV4(k) == v4
      && |octets| <= 3
      && k[Offset(v4)..Offset(v4) + |octets|] == octets
    }

    predicate Sized(w: Width) {
      |octets| == w || |octets| == w + 1
    }

    function Name(w: Width): string
      requires Sized(w)
    {
      if v4 then "v4" + Dotted(octets)
      else "v6_" + Hex.Encode(octets[..w]) + if |octets| == w then "" else "_" + Hex.Octet(octets[w])
    }

    /** Base pieces stand where they are not split, fine ones where they are. */
    predicate InUse(w: Width, split: set<string>) {
      && Sized(w)
      && (Piece(v4, octets[..w]).Name(w) in split <==> |octets| == w + 1)
    }
  }

  function Dotted(os: Bytes): string {
    if os == [] then "" else "_" + Decimal(os[0]) + Dotted(os[1..])
  }

  function OctetsOf(v: int, w: Width): (os: Bytes)
    requires 0 <= v < Shards(w)
    ensures |os| == w
  {
    if w == 1 then [v] else [v / 256, v % 256]
  }

  lemma DottedOf(a: Byte, b: Byte)
    ensures Dotted([a]) == "_" + Decimal(a)
    ensures Dotted([a, b]) == "_" + Decimal(a) + "_" + Decimal(b)
  {
    assert [a][1..] == [] && [a, b][1..] == [b] && [b][1..] == [];
    assert Dotted([b]) == "_" + Decimal(b) + Dotted([]);
    assert Dotted([a]) == "_" + Decimal(a) + Dotted([]);
  }

  lemma {:induction false} DottedAppend(os: Bytes, n: Byte)
    ensures Dotted(os + [n]) == Dotted(os) + "_" + Decimal(n)
  {
    if os == [] {
      DottedOf(n, n);
      assert os + [n] == [n];
    } else {
      assert (os + [n])[1..] == os[1..] + [n];
      DottedAppend(os[1..], n);
    }
  }

  lemma EncodeOf(a: Byte, b: Byte)
    ensures Hex.Encode([a]) == Hex.Octet(a)
    ensures Hex.Encode([a, b]) == Hex.Octet(a) + Hex.Octet(b)
  {
    assert [a][1..] == [] && [a, b][1..] == [b] && [b][1..] == [];
    assert Hex.Encode([b]) == Hex.Octet(b) + Hex.Encode([]);
    assert Hex.Encode([a]) == Hex.Octet(a) + Hex.Encode([]);
  }

  lemma OctetsSmall(v: int, w: Width)
    requires 0 <= v < Shards(w)
    ensures w == 1 ==> v % 256 == v
    ensures w == 2 ==> v / 256 % 256 == v / 256 && 0 <= v / 256 < 256
  {
  }

  /** A base shard's name is its piece's name. */
  lemma BaseNameIsPiece(v4: bool, v: int, w: Width)
    requires 0 <= v < Shards(w)
    ensures ShardName(FamilyId(v4, v), w) == Piece(v4, OctetsOf(v, w)).Name(w)
  {
    NameOfId(v4, v, w);
    OctetsSmall(v, w);
    if v4 {
      FourName(v, w);
    } else {
      SixName(v, w);
    }
  }

  lemma FourName(v: int, w: Width)
    requires 0 <= v < Shards(w)
    ensures BaseName(true, v, w) == "v4" + Dotted(OctetsOf(v, w))
  {
    OctetsSmall(v, w);
    if w == 1 {
      DottedOf(v, 0);
    } else {
      var a, b: Byte := v / 256, v % 256;
      DottedOf(a, b);
      assert BaseName(true, v, w) == "v4_" + Decimal(a) + "_" + Decimal(b);
    }
  }

  lemma SixName(v: int, w: Width)
    requires 0 <= v < Shards(w)
    ensures BaseName(false, v, w) == Piece(false, OctetsOf(v, w)).Name(w)
  {
    OctetsSmall(v, w);
    var os := OctetsOf(v, w);
    assert os[..w] == os;
    if w == 1 {
      EncodeOf(v, 0);
    } else {
      var a, b: Byte := v / 256, v % 256;
      EncodeOf(a, b);
      assert BaseName(false, v, w) == "v6_" + Hex.Octet(a) + Hex.Octet(b);
    }
  }

  lemma FineNameIsPiece(v4: bool, v: int, w: Width, n: Byte)
    requires 0 <= v < Shards(w)
    ensures ShardName(FamilyId(v4, v), w) + "_" + OctetStr(v4, n)
         == Piece(v4, OctetsOf(v, w) + [n]).Name(w)
  {
    BaseNameIsPiece(v4, v, w);
    FinerName(v4, OctetsOf(v, w), w, n);
  }

  lemma FinerName(v4: bool, os: Bytes, w: Width, n: Byte)
    requires |os| == w
    ensures Piece(v4, os).Name(w) + "_" + OctetStr(v4, n) == Piece(v4, os + [n]).Name(w)
  {
    assert os[..w] == os && (os + [n])[..w] == os;
    if v4 {
      DottedAppend(os, n);
    }
  }

  /** Reading a dotted name back: a decimal ends where the next mark begins. */
  lemma {:induction false} DottedInjective(a: Bytes, b: Bytes)
    requires Dotted(a) == Dotted(b)
    ensures a == b
  {
    if a != [] && b != [] {
      FirstOctet(a, b);
      DottedInjective(a[1..], b[1..]);
      assert a == [a[0]] + a[1..] && b == [b[0]] + b[1..];
    }
  }

  lemma FirstOctet(a: Bytes, b: Bytes)
    requires a != [] && b != [] && Dotted(a) == Dotted(b)
    ensures a[0] == b[0] && Dotted(a[1..]) == Dotted(b[1..])
  {
    AfterMark(a);
    AfterMark(b);
    HeadEnds(Decimal(a[0]), Dotted(a[1..]), Decimal(b[0]), Dotted(b[1..]));
    DecimalInjective(a[0], b[0]);
  }

  lemma AfterMark(os: Bytes)
    requires os != []
    ensures |Dotted(os)| > 0 && Dotted(os)[1..] == Decimal(os[0]) + Dotted(os[1..])
    ensures Dotted(os[1..]) == "" || Dotted(os[1..])[0] == '_'
  {
    CutMark(Decimal(os[0]), Dotted(os[1..]));
    MarkFirst(os[1..]);
  }

  lemma CutMark(x: string, y: string)
    ensures ("_" + x + y)[1..] == x + y
  {
  }

  lemma MarkFirst(os: Bytes)
    ensures Dotted(os) == "" || Dotted(os)[0] == '_'
  {
  }

  lemma HeadNotLonger(x: string, s: string, y: string, t: string)
    requires x + s == y + t
    requires forall i | 0 <= i < |x| :: x[i] != '_'
    requires t == "" || t[0] == '_'
    ensures |x| <= |y|
  {
    assert |x| + |s| == |x + s| == |y + t| == |y| + |t|;
    if t != "" {
      assert forall i | 0 <= i < |x| :: (x + s)[i] != '_';
      assert (y + t)[|y|] == '_';
    }
  }

  lemma HeadEnds(x: string, s: string, y: string, t: string)
    requires x + s == y + t
    requires forall i | 0 <= i < |x| :: x[i] != '_'
    requires forall i | 0 <= i < |y| :: y[i] != '_'
    requires (s == "" || s[0] == '_') && (t == "" || t[0] == '_')
    ensures x == y && s == t
  {
    HeadNotLonger(x, s, y, t);
    HeadNotLonger(y, t, x, s);
    assert x == (x + s)[..|x|] && y == (y + t)[..|y|];
    assert s == (x + s)[|x|..] && t == (y + t)[|y|..];
  }

  lemma DecimalInjective(a: Byte, b: Byte)
    requires Decimal(a) == Decimal(b)
    ensures a == b
  {
    DecimalReads(a);
    DecimalReads(b);
  }

  lemma DecimalReads(a: Byte)
    ensures DecimalValue(Decimal(a)) == a
    ensures |Decimal(a)| == if a < 10 then 1 else if a < 100 then 2 else 3
  {
  }

  function DecimalValue(s: string): int {
    if |s| == 1 then Hex.DigitValue(s[0])
    else if |s| == 2 then Hex.DigitValue(s[0]) * 10 + Hex.DigitValue(s[1])
    else if |s| == 3 then Hex.DigitValue(s[0]) * 100 + Hex.DigitValue(s[1]) * 10 + Hex.DigitValue(s[2])
    else -1
  }

  /** No two pieces of one layout share a file name, whatever their family
      and whether they are base or fine. */
  lemma NameInjective(a: Piece, b: Piece, w: Width)
    requires a.Sized(w) && b.Sized(w) && a.Name(w) == b.Name(w)
    ensures a == b
  {
    assert a.Name(w)[1] == if a.v4 then '4' else '6';
    assert b.Name(w)[1] == if b.v4 then '4' else '6';
    if a.v4 {
      assert a.Name(w)[2..] == Dotted(a.octets) && b.Name(w)[2..] == Dotted(b.octets);
      DottedInjective(a.octets, b.octets);
    } else {
      SixInjective(a.octets, b.octets, w);
    }
  }

  lemma SixInjective(a: Bytes, b: Bytes, w: Width)
    requires Piece(false, a).Sized(w) && Piece(false, b).Sized(w)
    requires Piece(false, a).Name(w) == Piece(false, b).Name(w)
    ensures a == b
  {
    var s, t := Piece(false, a).Name(w), Piece(false, b).Name(w);
    assert |a| == |b|;
    assert s[3..3 + 2 * w] == Hex.Encode(a[..w]) && t[3..3 + 2 * w] == Hex.Encode(b[..w]);
    Hex.EncodeInjective(a[..w], b[..w]);
    if |a| == w {
      assert a[..w] == a && b[..w] == b;
    } else {
      assert s[4 + 2 * w..] == Hex.Octet(a[w]) && t[4 + 2 * w..] == Hex.Octet(b[w]);
      assert a == a[..w] + [a[w]] && b == b[..w] + [b[w]];
    }
  }

  lemma OctetsOfKey(k: Key, w: Width)
    ensures PrefixInt(k, IsV4(k), w) < Shards(w)
    ensures OctetsOf(PrefixInt(k, IsV4(k), w), w) == k[Offset(IsV4(k))..Offset(IsV4(k)) + w]
  {
  }

  lemma NextOctet(k: Key, off: nat, w: Width)
    requires off + w < 16
    ensures var os := k[off..off + w];
            k[off..off + w + 1] == os + [k[off + w]] && (os + [k[off + w]])[..w] == os && os[..w] == os
  {
  }

  /** A key's base piece, and the fine piece under it. */
  function Coarse(k: Key, w: Width): (pc: Piece)
    ensures pc.Sized(w)
  {
    var off := Offset(IsV4(k));
    Piece(IsV4(k), k[off..off + w])
  }

  function Fine(k: Key, w: Width): (pc: Piece)
    ensures pc.Sized(w)
  {
    var off := Offset(IsV4(k));
    Piece(IsV4(k), k[off..off + w] + [k[off + w]])
  }

  lemma NamesOfKey(k: Key, w: Width)
    ensures ShardName(ShardId(k, IsV4(k), w), w) == Coarse(k, w).Name(w)
    ensures FineName(ShardName(ShardId(k, IsV4(k), w), w), k, IsV4(k), w) == Fine(k, w).Name(w)
  {
    OctetsOfKey(k, w);
    BaseNameIsPiece(IsV4(k), PrefixInt(k, IsV4(k), w), w);
    FineNameIsPiece(IsV4(k), PrefixInt(k, IsV4(k), w), w, k[Offset(IsV4(k)) + w]);
  }

  /** The piece in use that has a key. */
  lemma OwnPiece(k: Key, w: Width, split: set<string>) returns (mine: Piece)
    ensures mine.Has(k) && mine.InUse(w, split) && ShardOf(k, w, split) == mine.Name(w)
  {
    NamesOfKey(k, w);
    NextOctet(k, Offset(IsV4(k)), w);
    mine := if Coarse(k, w).Name(w) in split then Fine(k, w) else Coarse(k, w);
  }

  /** Routing a row: it goes to the file of the one piece in use that has it. */
  lemma ShardOfIsPiece(k: Key, w: Width, split: set<string>, pc: Piece)
    requires pc.InUse(w, split)
    ensures ShardOf(k, w, split) == pc.Name(w) <==> pc.Has(k)
  {
    var mine := OwnPiece(k, w, split);
    if ShardOf(k, w, split) == pc.Name(w) {
      NameInjective(mine, pc, w);
    }
    if pc.Has(k) {
      SamePiece(mine, pc, w, split, k);
    }
  }

  lemma SamePiece(a: Piece, b: Piece, w: Width, split: set<string>, k: Key)
    requires a.InUse(w, split) && b.InUse(w, split) && a.Has(k) && b.Has(k)
    ensures a == b
  {
    HeadOfPiece(a, w, k);
    HeadOfPiece(b, w, k);
  }

  lemma HeadOfPiece(a: Piece, w: Width, k: Key)
    requires a.Sized(w) && a.Has(k)
    ensures a.octets[..w] == k[Offset(a.v4)..Offset(a.v4) + w]
  {
    var off := Offset(a.v4);
    assert a.octets[..w] == k[off..off + |a.octets|][..w];
  }
}
