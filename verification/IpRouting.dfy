/** From a prefix to the shard files that a lookup opens, in order. */
module IpRouting {
  import opened Octets
  import opened IpKeys
  import opened IpShards
  import Lex

  /** Bounds of one family: a v4 prefix has both bounds in the mapped block. */
  ghost predicate FamilyBounds(lo: Key, hi: Key, v4: bool) {
    Lex.Leq(lo, hi) && (v4 ==> IsV4(lo) && IsV4(hi))
  }

  function FirstFine(v: int, lo: Key, v4: bool, w: Width): Byte {
    if v == PrefixInt(lo, v4, w) then lo[Offset(v4) + w] else 0
  }

  function LastFine(v: int, hi: Key, v4: bool, w: Width): Byte {
    if v == PrefixInt(hi, v4, w) then hi[Offset(v4) + w] else 255
  }

  /** The pieces `first` to `last` one octet below a base shard. */
  function FinePieces(v4: bool, os: Bytes, first: Byte, last: Byte): (ps: seq<Piece>)
    requires first <= last
    ensures |ps| == last + 1 - first
    ensures forall i | 0 <= i < |ps| :: ps[i] == Piece(v4, os + [first + i])
  {
    seq(last + 1 - first, i requires 0 <= i < last + 1 - first => Piece(v4, os + [first + i]))
  }

  /** The pieces under one base shard that the bounds reach. */
  function PiecesAt(v: int, lo: Key, hi: Key, v4: bool, w: Width, split: set<string>): seq<Piece> {
    if !(0 <= v < Shards(w) && FirstFine(v, lo, v4, w) <= LastFine(v, hi, v4, w)) then []
    else if ShardName(FamilyId(v4, v), w) in split
    then FinePieces(v4, OctetsOf(v, w), FirstFine(v, lo, v4, w), LastFine(v, hi, v4, w))
    else [Piece(v4, OctetsOf(v, w))]
  }

  /** The pieces of the base shards `v` to `last`, given those of each. */
  ghost function Pieces(v: int, last: int, at: int -> seq<Piece>): seq<Piece>
    decreases last + 1 - v
  {
    if v > last then [] else at(v) + Pieces(v + 1, last, at)
  }

  function Names(ps: seq<Piece>, f: Piece -> string): (ns: seq<string>)
    ensures |ns| == |ps|
  {
    seq(|ps|, i requires 0 <= i < |ps| => f(ps[i]))
  }

  lemma NamesConcat(a: seq<Piece>, b: seq<Piece>, f: Piece -> string)
    ensures Names(a + b, f) == Names(a, f) + Names(b, f)
  {
  }

  lemma PrefixIntSmall(k: Key, v4: bool, w: Width)
    ensures PrefixInt(k, v4, w) < Shards(w)
  {
  }

  lemma SameHead(x: Key, y: Key, v4: bool)
    requires v4 ==> IsV4(x) && IsV4(y)
    ensures x[..Offset(v4)] == y[..Offset(v4)]
  {
  }

  /** Within a family the leading octets order keys before the rest does. */
  lemma LeadingDecides(x: Key, y: Key, v4: bool, w: Width)
    requires v4 ==> IsV4(x) && IsV4(y)
    ensures PrefixInt(x, v4, w) < PrefixInt(y, v4, w) ==> Lex.Less(x, y)
    ensures PrefixInt(x, v4, w) == PrefixInt(y, v4, w) && x[Offset(v4) + w] < y[Offset(v4) + w] ==> Lex.Less(x, y)
  {
    var off := Offset(v4);
    SameHead(x, y, v4);
    if PrefixInt(x, v4, w) < PrefixInt(y, v4, w) {
      if x[off] < y[off] {
        DecidedAt(x, y, off);
      } else {
        Extend(x, y, off);
        DecidedAt(x, y, off + 1);
      }
    } else if PrefixInt(x, v4, w) == PrefixInt(y, v4, w) && x[off + w] < y[off + w] {
      Extend(x, y, off);
      if w == 2 {
        Extend(x, y, off + 1);
      }
      DecidedAt(x, y, off + w);
    }
  }

  lemma Extend(x: Key, y: Key, q: nat)
    requires q < 16 && x[..q] == y[..q] && x[q] == y[q]
    ensures x[..q + 1] == y[..q + 1]
  {
    assert x[..q + 1] == x[..q] + [x[q]] && y[..q + 1] == y[..q] + [y[q]];
  }

  lemma LeadingMonotone(x: Key, y: Key, v4: bool, w: Width)
    requires Lex.Leq(x, y) && (v4 ==> IsV4(x) && IsV4(y))
    ensures PrefixInt(x, v4, w) <= PrefixInt(y, v4, w)
    ensures PrefixInt(x, v4, w) == PrefixInt(y, v4, w) ==> x[Offset(v4) + w] <= y[Offset(v4) + w]
  {
    LeadingDecides(y, x, v4, w);
    if Lex.Less(y, x) {
      Lex.Asymmetric(y, x);
    }
  }

  lemma FineInOrder(v: int, lo: Key, hi: Key, v4: bool, w: Width)
    requires FamilyBounds(lo, hi, v4) && PrefixInt(lo, v4, w) <= v <= PrefixInt(hi, v4, w)
    ensures v < Shards(w)
    ensures FirstFine(v, lo, v4, w) <= LastFine(v, hi, v4, w)
  {
    PrefixIntSmall(hi, v4, w);
    LeadingMonotone(lo, hi, v4, w);
  }

  // ------------------------------------------------- order of the pieces

  function HeadInt(os: Bytes, w: Width): int
    requires |os| >= w
  {
    if w == 1 then os[0] else 256 * (os[0] as int) + os[1]
  }

  predicate Precedes(a: Piece, b: Piece, w: Width) {
    && a.Sized(w) && b.Sized(w) && a.v4 == b.v4
    && (|| HeadInt(a.octets, w) < HeadInt(b.octets, w)
        || (&& HeadInt(a.octets, w) == HeadInt(b.octets, w)
            && |a.octets| == w + 1 && |b.octets| == w + 1 && a.octets[w] < b.octets[w]))
  }

  lemma HeadIntOfKey(pc: Piece, w: Width, k: Key)
    requires pc.Sized(w) && pc.Has(k)
    ensures HeadInt(pc.octets, w) == PrefixInt(k, pc.v4, w)
    ensures |pc.octets| == w + 1 ==> pc.octets[w] == k[Offset(pc.v4) + w]
  {
    var off := Offset(pc.v4);
    var s := k[off..off + |pc.octets|];
    assert s[0] == k[off];
    assert s[w - 1] == k[off + w - 1];
    assert |pc.octets| == w + 1 ==> s[w] == k[off + w];
  }

  /** Every key of an earlier piece is below every key of a later one. */
  lemma PrecedesMeansLess(a: Piece, b: Piece, w: Width, x: Key, y: Key)
    requires Precedes(a, b, w) && a.Has(x) && b.Has(y)
    ensures Lex.Less(x, y)
  {
    HeadIntOfKey(a, w, x);
    HeadIntOfKey(b, w, y);
    LeadingDecides(x, y, a.v4, w);
  }

  ghost predicate Routed(ps: seq<Piece>, w: Width, split: set<string>, v4: bool) {
    && (forall i | 0 <= i < |ps| :: ps[i].v4 == v4 && ps[i].InUse(w, split))
    && (forall i, j | 0 <= i < j < |ps| :: Precedes(ps[i], ps[j], w))
  }

  lemma HeadIntOfOctets(v: int, w: Width, rest: Bytes)
    requires 0 <= v < Shards(w)
    ensures |OctetsOf(v, w) + rest| >= w
    ensures HeadInt(OctetsOf(v, w) + rest, w) == v
    ensures (OctetsOf(v, w) + rest)[..w] == OctetsOf(v, w)
  {
    var os := OctetsOf(v, w);
    assert (os + rest)[0] == os[0] && (os + rest)[w - 1] == os[w - 1];
  }

  /** What the pieces of one base shard look like. */
  ghost predicate Chunk(ps: seq<Piece>, v: int, w: Width, split: set<string>, v4: bool) {
    && Routed(ps, w, split, v4)
    && forall i | 0 <= i < |ps| :: ps[i].Sized(w) && HeadInt(ps[i].octets, w) == v
  }

  lemma BaseChunk(v4: bool, v: int, w: Width, split: set<string>)
    requires 0 <= v < Shards(w) && ShardName(FamilyId(v4, v), w) !in split
    ensures Chunk([Piece(v4, OctetsOf(v, w))], v, w, split, v4)
  {
    BaseNameIsPiece(v4, v, w);
    HeadIntOfOctets(v, w, []);
    assert OctetsOf(v, w) + [] == OctetsOf(v, w);
  }

  lemma FinePieceInUse(v4: bool, v: int, w: Width, split: set<string>, n: Byte)
    requires 0 <= v < Shards(w) && ShardName(FamilyId(v4, v), w) in split
    ensures Piece(v4, OctetsOf(v, w) + [n]).InUse(w, split)
  {
    BaseNameIsPiece(v4, v, w);
    HeadIntOfOctets(v, w, [n]);
  }

  lemma FineChunk(v4: bool, v: int, w: Width, split: set<string>, first: Byte, last: Byte)
    requires 0 <= v < Shards(w) && ShardName(FamilyId(v4, v), w) in split && first <= last
    ensures Chunk(FinePieces(v4, OctetsOf(v, w), first, last), v, w, split, v4)
  {
    var ps := FinePieces(v4, OctetsOf(v, w), first, last);
    forall i | 0 <= i < |ps|
      ensures ps[i].v4 == v4 && ps[i].InUse(w, split) && HeadInt(ps[i].octets, w) == v
    {
      FinePieceInUse(v4, v, w, split, first + i);
      HeadIntOfOctets(v, w, [first + i]);
    }
    forall i, j | 0 <= i < j < |ps|
      ensures Precedes(ps[i], ps[j], w)
    {
    }
  }

  lemma PiecesAtFacts(v: int, lo: Key, hi: Key, v4: bool, w: Width, split: set<string>)
    ensures Chunk(PiecesAt(v, lo, hi, v4, w, split), v, w, split, v4)
  {
    if 0 <= v < Shards(w) && FirstFine(v, lo, v4, w) <= LastFine(v, hi, v4, w) {
      if ShardName(FamilyId(v4, v), w) in split {
        FineChunk(v4, v, w, split, FirstFine(v, lo, v4, w), LastFine(v, hi, v4, w));
      } else {
        BaseChunk(v4, v, w, split);
      }
    }
  }

  ghost predicate HeadsFrom(ps: seq<Piece>, w: Width, v: int) {
    forall i | 0 <= i < |ps| :: ps[i].Sized(w) && HeadInt(ps[i].octets, w) >= v
  }

  lemma OrderedConcat(a: seq<Piece>, b: seq<Piece>, w: Width, v: int)
    requires forall i, j | 0 <= i < j < |a| :: Precedes(a[i], a[j], w)
    requires forall i, j | 0 <= i < j < |b| :: Precedes(b[i], b[j], w)
    requires forall i | 0 <= i < |a| :: a[i].Sized(w) && HeadInt(a[i].octets, w) == v
    requires forall i | 0 <= i < |b| :: b[i].Sized(w) && HeadInt(b[i].octets, w) > v
    requires forall i, j | 0 <= i < |a| && 0 <= j < |b| :: a[i].v4 == b[j].v4
    ensures forall i, j | 0 <= i < j < |a + b| :: Precedes((a + b)[i], (a + b)[j], w)
  {
    forall i, j | 0 <= i < j < |a + b|
      ensures Precedes((a + b)[i], (a + b)[j], w)
    {
      if j < |a| {
        assert (a + b)[i] == a[i] && (a + b)[j] == a[j];
      } else if i < |a| {
        assert (a + b)[i] == a[i] && (a + b)[j] == b[j - |a|];
      } else {
        assert (a + b)[i] == b[i - |a|] && (a + b)[j] == b[j - |a|];
      }
    }
  }

  lemma RoutedConcat(a: seq<Piece>, b: seq<Piece>, w: Width, split: set<string>, v4: bool, v: int)
    requires Routed(b, w, split, v4)
    requires Chunk(a, v, w, split, v4) && HeadsFrom(b, w, v + 1)
    ensures Routed(a + b, w, split, v4) && HeadsFrom(a + b, w, v)
  {
    OrderedConcat(a, b, w, v);
    forall i | 0 <= i < |a + b|
      ensures (a + b)[i].v4 == v4 && (a + b)[i].InUse(w, split)
    {
      assert (a + b)[i] == if i < |a| then a[i] else b[i - |a|];
    }
  }

  lemma {:induction false} PiecesRouted(v: int, last: int, at: int -> seq<Piece>, w: Width, split: set<string>,
                                        v4: bool)
    requires forall u | v <= u <= last :: Chunk(at(u), u, w, split, v4)
    ensures Routed(Pieces(v, last, at), w, split, v4) && HeadsFrom(Pieces(v, last, at), w, v)
    decreases last + 1 - v
  {
    if v <= last {
      PiecesRouted(v + 1, last, at, w, split, v4);
      RoutedConcat(at(v), Pieces(v + 1, last, at), w, split, v4, v);
    }
  }

  // ------------------------------------------------- every key is reached

  lemma PieceHas(v: int, v4: bool, w: Width, k: Key)
    requires IsV4(k) == v4 && v == PrefixInt(k, v4, w) && v < Shards(w)
    ensures Piece(v4, OctetsOf(v, w)).Has(k)
    ensures Piece(v4, OctetsOf(v, w) + [k[Offset(v4) + w]]).Has(k)
  {
    var off := Offset(v4);
    OctetsOfKey(k, w);
    assert k[off..off + w + 1] == k[off..off + w] + [k[off + w]];
  }

  lemma PieceAtHas(v: int, lo: Key, hi: Key, v4: bool, w: Width, split: set<string>, k: Key) returns (pc: Piece)
    requires FamilyBounds(lo, hi, v4) && InRange(lo, hi, k) && IsV4(k) == v4
    requires v == PrefixInt(k, v4, w) && v < Shards(w)
    requires FirstFine(v, lo, v4, w) <= LastFine(v, hi, v4, w)
    ensures pc in PiecesAt(v, lo, hi, v4, w, split) && pc.Has(k)
  {
    LeadingMonotone(lo, k, v4, w);
    LeadingMonotone(k, hi, v4, w);
    PieceHas(v, v4, w, k);
    var n := k[Offset(v4) + w];
    if ShardName(FamilyId(v4, v), w) in split {
      pc := Piece(v4, OctetsOf(v, w) + [n]);
      var i := n - FirstFine(v, lo, v4, w);
      assert FinePieces(v4, OctetsOf(v, w), FirstFine(v, lo, v4, w), LastFine(v, hi, v4, w))[i] == pc;
    } else {
      pc := Piece(v4, OctetsOf(v, w));
    }
  }

  lemma {:induction false} InSomeChunk(v: int, last: int, at: int -> seq<Piece>, u: int, pc: Piece)
    requires v <= u <= last && pc in at(u)
    ensures pc in Pieces(v, last, at)
    decreases last + 1 - v
  {
    if v < u {
      InSomeChunk(v + 1, last, at, u, pc);
    }
  }

  ghost function PiecesFn(lo: Key, hi: Key, v4: bool, w: Width, split: set<string>): int -> seq<Piece> {
    v => PiecesAt(v, lo, hi, v4, w, split)
  }

  /** The pieces a lookup between the bounds visits. */
  ghost function Route(lo: Key, hi: Key, v4: bool, w: Width, split: set<string>): seq<Piece> {
    Pieces(PrefixInt(lo, v4, w), PrefixInt(hi, v4, w), PiecesFn(lo, hi, v4, w, split))
  }

  /** The visited pieces are in use, in key order and none twice. */
  lemma RouteInOrder(lo: Key, hi: Key, v4: bool, w: Width, split: set<string>)
    ensures Routed(Route(lo, hi, v4, w, split), w, split, v4)
  {
    var at := PiecesFn(lo, hi, v4, w, split);
    forall u
      ensures Chunk(at(u), u, w, split, v4)
    {
      PiecesAtFacts(u, lo, hi, v4, w, split);
    }
    PiecesRouted(PrefixInt(lo, v4, w), PrefixInt(hi, v4, w), at, w, split, v4);
  }

  /** Every key of the family between the bounds is in a visited piece. */
  lemma EveryKeyReached(lo: Key, hi: Key, v4: bool, w: Width, split: set<string>, k: Key)
    requires FamilyBounds(lo, hi, v4) && InRange(lo, hi, k) && IsV4(k) == v4
    ensures exists pc :: pc in Route(lo, hi, v4, w, split) && pc.Has(k)
  {
    var at := PiecesFn(lo, hi, v4, w, split);
    var v := PrefixInt(k, v4, w);
    LeadingMonotone(lo, k, v4, w);
    LeadingMonotone(k, hi, v4, w);
    FineInOrder(v, lo, hi, v4, w);
    var pc := PieceAtHas(v, lo, hi, v4, w, split, k);
    InSomeChunk(PrefixInt(lo, v4, w), PrefixInt(hi, v4, w), at, v, pc);
  }

  // ------------------------------------------------------------ the router

  /** The shard ids from the lower bound's to the upper bound's, none left
      out. */
  method ShardsForPrefix(p: Prefix, w: Width, ghost lo: Key, ghost hi: Key) returns (ids: seq<int>)
    requires p.Valid() && Bounds(lo, hi, p.Key16(), p.Bits())
    ensures |ids| == PrefixInt(hi, p.V4?, w) - PrefixInt(lo, p.V4?, w) + 1
    ensures forall i | 0 <= i < |ids| :: ids[i] == FamilyId(p.V4?, PrefixInt(lo, p.V4?, w) + i)
  {
    var l, h := PrefixRange(p);
    BoundsUnique(lo, hi, l, h, p.Key16(), p.Bits());
    BoundsOfPrefix(p, l, h);
    var loS := ShardPrefixInt(l, p.V4?, w);
    var hiS := ShardPrefixInt(h, p.V4?, w);
    LeadingMonotone(l, h, p.V4?, w);
    ids := [];
    for s := loS to hiS + 1
      invariant |ids| == s - loS
      invariant forall i | 0 <= i < |ids| :: ids[i] == FamilyId(p.V4?, loS + i)
    {
      ids := ids + [if p.V4? then s else V6_SHARD_BIT + s];
    }
  }

  lemma BoundsOfPrefix(p: Prefix, lo: Key, hi: Key)
    requires p.Valid() && Bounds(lo, hi, p.Key16(), p.Bits())
    ensures FamilyBounds(lo, hi, p.V4?)
  {
    RangeIsPrefix(lo, hi, p.Key16(), p.Bits(), lo);
    if p.V4? {
      V4CoversMapped(p, lo);
      V4CoversMapped(p, hi);
    }
  }

  /** The bounds of a prefix are unique. */
  lemma BoundsUnique(lo: Key, hi: Key, lo': Key, hi': Key, a: Key, n: nat)
    requires n <= 128 && Bounds(lo, hi, a, n) && Bounds(lo', hi', a, n)
    ensures lo == lo' && hi == hi'
  {
    assert SameBits(lo, lo', 128) && SameBits(hi, hi', 128);
    if lo != lo' {
      NotSame(lo, lo');
    }
    if hi != hi' {
      NotSame(hi, hi');
    }
  }

  /** The file name of a piece. */
  ghost function NameFn(w: Width): Piece -> string {
    (pc: Piece) => if pc.Sized(w) then pc.Name(w) else ""
  }

  lemma FineNamesArePieces(names: seq<string>, base: string, v4: bool, v: int, w: Width, first: Byte, last: Byte)
    requires 0 <= v < Shards(w) && first <= last && |names| == last + 1 - first
    requires base == ShardName(FamilyId(v4, v), w)
    requires forall i | 0 <= i < |names| :: names[i] == base + "_" + OctetStr(v4, first + i)
    ensures names == Names(FinePieces(v4, OctetsOf(v, w), first, last), NameFn(w))
  {
    var os := OctetsOf(v, w);
    var ps := FinePieces(v4, os, first, last);
    forall i | 0 <= i < |names|
      ensures names[i] == NameFn(w)(ps[i])
    {
      FineNameFn(base, v4, v, w, first + i);
    }
    NamesAre(names, ps, NameFn(w));
  }

  lemma FineNameFn(base: string, v4: bool, v: int, w: Width, n: Byte)
    requires 0 <= v < Shards(w) && base == ShardName(FamilyId(v4, v), w)
    ensures NameFn(w)(Piece(v4, OctetsOf(v, w) + [n])) == base + "_" + OctetStr(v4, n)
  {
    FineNameIsPiece(v4, v, w, n);
  }

  lemma NamesAre(names: seq<string>, ps: seq<Piece>, f: Piece -> string)
    requires |names| == |ps| && forall i | 0 <= i < |names| :: names[i] == f(ps[i])
    ensures names == Names(ps, f)
  {
  }

  method FineNamesForBase(base: string, v: int, v4: bool, w: Width, lo: Key, hi: Key) returns (names: seq<string>)
    requires 0 <= v < Shards(w) && base == ShardName(FamilyId(v4, v), w)
    requires FirstFine(v, lo, v4, w) <= LastFine(v, hi, v4, w)
    ensures names == Names(FinePieces(v4, OctetsOf(v, w), FirstFine(v, lo, v4, w), LastFine(v, hi, v4, w)), NameFn(w))
  {
    var off := if v4 then 12 else 0;
    var loP := ShardPrefixInt(lo, v4, w);
    var hiP := ShardPrefixInt(hi, v4, w);
    var nLo, nHi := 0, 255;
    if v == loP {
      nLo := lo[off + w] as int;
    }
    if v == hiP {
      nHi := hi[off + w] as int;
    }
    names := [];
    for n := nLo to nHi + 1
      invariant |names| == n - nLo
      invariant forall i | 0 <= i < |names| :: names[i] == base + "_" + OctetStr(v4, nLo + i)
    {
      names := names + [base + "_" + OctetStr(v4, n)];
    }
    FineNamesArePieces(names, base, v4, v, w, nLo, nHi);
  }

  /** The base shard lies in the id space and its fine range is not empty. */
  ghost predicate Opens(v: int, lo: Key, hi: Key, v4: bool, w: Width) {
    0 <= v < Shards(w) && FirstFine(v, lo, v4, w) <= LastFine(v, hi, v4, w)
  }

  ghost predicate AtIs(at: int -> seq<Piece>, v: int, lo: Key, hi: Key, v4: bool, w: Width, split: set<string>) {
    at(v) == PiecesAt(v, lo, hi, v4, w, split)
  }

  /** `at` gives the pieces of each base shard. */
  ghost predicate IsPieces(at: int -> seq<Piece>, lo: Key, hi: Key, v4: bool, w: Width, split: set<string>) {
    forall v :: AtIs(at, v, lo, hi, v4, w, split)
  }

  ghost predicate ChunkAt(names: seq<string>, v: int, at: int -> seq<Piece>, f: Piece -> string) {
    names == Names(at(v), f)
  }

  method NamesAt(id: int, ghost v: int, split: set<string>, v4: bool, w: Width, lo: Key, hi: Key,
                 ghost at: int -> seq<Piece>, ghost f: Piece -> string)
    returns (more: seq<string>)
    requires Opens(v, lo, hi, v4, w) && id == FamilyId(v4, v)
    requires IsPieces(at, lo, hi, v4, w, split) && f == NameFn(w)
    ensures ChunkAt(more, v, at, f)
  {
    var base := ShardName(id, w);
    assert AtIs(at, v, lo, hi, v4, w, split);
    if base in split {
      more := FineNamesForBase(base, if v4 then id else id - V6_SHARD_BIT, v4, w, lo, hi);
    } else {
      BaseNameIsPiece(v4, v, w);
      more := [base];
    }
  }

  ghost function Flat(chunks: seq<seq<string>>): (names: seq<string>) {
    if chunks == [] then [] else Flat(chunks[..|chunks| - 1]) + chunks[|chunks| - 1]
  }

  lemma {:induction false} PiecesLast(v: int, last: int, at: int -> seq<Piece>)
    requires v <= last
    ensures Pieces(v, last, at) == Pieces(v, last - 1, at) + at(last)
    decreases last - v
  {
    if v < last {
      PiecesLast(v + 1, last, at);
    }
  }

  lemma {:induction false} FlatIsPieces(chunks: seq<seq<string>>, first: int, at: int -> seq<Piece>, f: Piece -> string)
    requires forall i | 0 <= i < |chunks| :: ChunkAt(chunks[i], first + i, at, f)
    ensures Flat(chunks) == Names(Pieces(first, first + |chunks| - 1, at), f)
  {
    if chunks != [] {
      var n := |chunks| - 1;
      FlatIsPieces(chunks[..n], first, at, f);
      assert ChunkAt(chunks[n], first + n, at, f);
      PiecesLast(first, first + n, at);
      assert Flat(chunks) == Flat(chunks[..n]) + chunks[n];
      NamesConcat(Pieces(first, first + n - 1, at), at(first + n), f);
    }
  }

  method NamesOfIds(ids: seq<int>, split: set<string>, v4: bool, w: Width, lo: Key, hi: Key,
                    ghost first: int, ghost at: int -> seq<Piece>, ghost f: Piece -> string)
    returns (names: seq<string>)
    requires forall i | 0 <= i < |ids| :: ids[i] == FamilyId(v4, first + i)
    requires forall v | first <= v < first + |ids| :: Opens(v, lo, hi, v4, w)
    requires IsPieces(at, lo, hi, v4, w, split) && f == NameFn(w)
    ensures names == Names(Pieces(first, first + |ids| - 1, at), f)
  {
    names := [];
    ghost var chunks: seq<seq<string>> := [];
    for i := 0 to |ids|
      invariant names == Flat(chunks) && |chunks| == i
      invariant forall j | 0 <= j < i :: ChunkAt(chunks[j], first + j, at, f)
    {
      var more := NamesAt(ids[i], first + i, split, v4, w, lo, hi, at, f);
      assert (chunks + [more])[..i] == chunks;
      names, chunks := names + more, chunks + [more];
    }
    FlatIsPieces(chunks, first, at, f);
  }

  /** The files a lookup opens are those of the visited pieces, in order. */
  method RouteNames(p: Prefix, w: Width, split: set<string>, lo: Key, hi: Key) returns (names: seq<string>)
    requires p.Valid() && Bounds(lo, hi, p.Key16(), p.Bits()) && FamilyBounds(lo, hi, p.V4?)
    ensures names == Names(Route(lo, hi, p.V4?, w, split), NameFn(w))
  {
    var ids := ShardsForPrefix(p, w, lo, hi);
    names := NamesBetween(ids, split, p.V4?, w, lo, hi);
  }

  method NamesBetween(ids: seq<int>, split: set<string>, v4: bool, w: Width, lo: Key, hi: Key)
    returns (names: seq<string>)
    requires FamilyBounds(lo, hi, v4)
    requires |ids| == PrefixInt(hi, v4, w) - PrefixInt(lo, v4, w) + 1
    requires forall i | 0 <= i < |ids| :: ids[i] == FamilyId(v4, PrefixInt(lo, v4, w) + i)
    ensures names == Names(Route(lo, hi, v4, w, split), NameFn(w))
  {
    ghost var first, at := PrefixInt(lo, v4, w), PiecesFn(lo, hi, v4, w, split);
    forall v | first <= v < first + |ids|
      ensures Opens(v, lo, hi, v4, w)
    {
      FineInOrder(v, lo, hi, v4, w);
    }
    PiecesFnIs(lo, hi, v4, w, split);
    names := NamesOfIds(ids, split, v4, w, lo, hi, first, at, NameFn(w));
  }

  lemma PiecesFnIs(lo: Key, hi: Key, v4: bool, w: Width, split: set<string>)
    ensures IsPieces(PiecesFn(lo, hi, v4, w, split), lo, hi, v4, w, split)
  {
    forall v
      ensures AtIs(PiecesFn(lo, hi, v4, w, split), v, lo, hi, v4, w, split)
    {
    }
  }
}
