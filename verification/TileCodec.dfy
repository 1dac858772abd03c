/** Tile leaves are self-delimiting: encoding, round trips and truncation. */
module TileCodec {
  import opened Octets
  import opened Wire
  import opened Framing
  import opened TileLeaves

  /** What the format can carry: section 3.4 of RFC 6962 has an X.509 entry as type 0, which has no issuer
      key hash and no TBSCertificate, and a precertificate as type 1. */
  predicate FitsStamped(st: Stamped) {
    && 0 <= st.timestamp < Pow256(8)
    && |st.extensions| < Pow256(2)
    && |st.keyHash| == 32
    && (st.entryType == 0 || st.entryType == 1)
    && (st.entryType == 0 ==> |st.certificate| < Pow256(3) && st.keyHash == seq(32, _ => 0) && st.tbs == [])
    && (st.entryType == 1 ==> |st.tbs| < Pow256(3) && st.certificate == [])
  }

  function Packed(fps: seq<Bytes>): (bs: Bytes) {
    if fps == [] then [] else fps[0] + Packed(fps[1..])
  }

  predicate AllHashes(fps: seq<Bytes>) {
    forall i | 0 <= i < |fps| :: |fps[i]| == 32
  }

  predicate FitsLeaf(l: TileLeaf) {
    && FitsStamped(l.stamped)
    && |l.preCertificate| < Pow256(3)
    && (l.stamped.entryType == 0 ==> l.preCertificate == [])
    && AllHashes(l.fingerprints)
    && 32 * |l.fingerprints| < Pow256(2)
  }

  lemma {:induction false} PackedLength(fps: seq<Bytes>)
    requires AllHashes(fps)
    ensures |Packed(fps)| == 32 * |fps|
  {
    if fps != [] {
      PackedLength(fps[1..]);
    }
  }

  lemma {:induction false} ChunksPacked(fps: seq<Bytes>)
    requires AllHashes(fps)
    ensures Chunks(Packed(fps)) == fps
  {
    if fps != [] {
      PackedLength(fps);
      assert Packed(fps)[..32] == fps[0] && Packed(fps)[32..] == Packed(fps[1..]);
      ChunksPacked(fps[1..]);
    }
  }

  lemma TypeFits()
    ensures Pow256(2) == 0x1_0000
  {
    assert Pow256(1) == 256;
  }

  function EncodeSigned(st: Stamped): (bs: Bytes)
    requires FitsStamped(st)
  {
    if st.entryType == 0 then Field(st.certificate, 3) else st.keyHash + Field(st.tbs, 3)
  }

  function EncodeStamped(st: Stamped): (bs: Bytes)
    requires FitsStamped(st)
    ensures |bs| >= 10
  {
    TypeFits();
    Encode(st.timestamp, 8) + (Encode(st.entryType, 2) + (EncodeSigned(st) + Field(st.extensions, 2)))
  }

  function EncodePreCertificate(l: TileLeaf): (bs: Bytes)
    requires FitsLeaf(l)
  {
    if l.stamped.entryType == 1 then Field(l.preCertificate, 3) else []
  }

  function EncodeLeaf(l: TileLeaf): (bs: Bytes)
    requires FitsLeaf(l)
    ensures |bs| >= 10
  {
    PackedLength(l.fingerprints);
    EncodeStamped(l.stamped) + (EncodePreCertificate(l) + Field(Packed(l.fingerprints), 2))
  }

  lemma SignedEncoded(st: Stamped, rest: Bytes)
    requires FitsStamped(st)
    ensures TakeSigned(EncodeSigned(st) + rest, st.entryType) == Done(Signed(st.certificate, st.keyHash, st.tbs), rest)
  {
    assert UNSET == seq(32, _ => 0);
    if st.entryType == X509 {
      FieldEncoded(st.certificate, 3, rest);
    } else {
      assert EncodeSigned(st) + rest == st.keyHash + (Field(st.tbs, 3) + rest);
      TakeEncoded(st.keyHash, Field(st.tbs, 3) + rest);
      FieldEncoded(st.tbs, 3, rest);
    }
  }

  lemma StampedEncoded(st: Stamped, rest: Bytes)
    requires FitsStamped(st)
    ensures TakeStamped(EncodeStamped(st) + rest) == Done(st, rest)
  {
    TypeFits();
    var s3 := Field(st.extensions, 2) + rest;
    var s2 := EncodeSigned(st) + s3;
    var s1 := Encode(st.entryType, 2) + s2;
    var c, d := EncodeSigned(st), Field(st.extensions, 2);
    Regroup(c, d, rest);
    Regroup(Encode(st.entryType, 2), c + d, rest);
    Regroup(Encode(st.timestamp, 8), Encode(st.entryType, 2) + (c + d), rest);
    NumberEncoded(st.timestamp, 8, s1);
    NumberEncoded(st.entryType, 2, s2);
    SignedEncoded(st, s3);
    FieldEncoded(st.extensions, 2, rest);
  }

  lemma PreCertificateEncoded(l: TileLeaf, rest: Bytes)
    requires FitsLeaf(l)
    ensures TakePreCertificate(EncodePreCertificate(l) + rest, l.stamped.entryType) == Done(l.preCertificate, rest)
  {
    if l.stamped.entryType == PRECERT {
      FieldEncoded(l.preCertificate, 3, rest);
    } else {
      assert [] + rest == rest;
    }
  }

  /** A leaf reads back, and reading stops exactly at its end. */
  lemma LeafEncoded(l: TileLeaf, rest: Bytes)
    requires FitsLeaf(l)
    ensures TakeLeaf(EncodeLeaf(l) + rest) == Done(l, rest)
  {
    PackedLength(l.fingerprints);
    var s2 := Field(Packed(l.fingerprints), 2) + rest;
    var s1 := EncodePreCertificate(l) + s2;
    Regroup(EncodePreCertificate(l), Field(Packed(l.fingerprints), 2), rest);
    Regroup(EncodeStamped(l.stamped), EncodePreCertificate(l) + Field(Packed(l.fingerprints), 2), rest);
    StampedEncoded(l.stamped, s1);
    PreCertificateEncoded(l, s2);
    FieldEncoded(Packed(l.fingerprints), 2, rest);
    ChunksPacked(l.fingerprints);
  }

  // ---------------------------------------------------------- the way back

  lemma SignedParsed(s: Bytes, ty: int, st: Stamped)
    requires TakeSigned(s, ty).Done? && st.entryType == ty
    requires TakeSigned(s, ty).value == Signed(st.certificate, st.keyHash, st.tbs)
    requires 0 <= st.timestamp < Pow256(8) && |st.extensions| < Pow256(2)
    ensures FitsStamped(st)
    ensures s == EncodeSigned(st) + TakeSigned(s, ty).rest
  {
    if ty == X509 {
      assert UNSET == seq(32, _ => 0);
      FieldParsed(s, 3);
    } else {
      FieldParsed(s[32..], 3);
      assert s == st.keyHash + (Field(st.tbs, 3) + TakeSigned(s, ty).rest);
    }
  }

  lemma StampedPieces(s: Bytes, a: Bytes, b: Bytes, c: Bytes, d: Bytes, rest: Bytes)
    requires s == a + (b + (c + (d + rest)))
    ensures s == a + (b + (c + d)) + rest
  {
  }

  lemma Regroup(a: Bytes, b: Bytes, c: Bytes)
    ensures a + b + c == a + (b + c)
  {
  }

  lemma StampedParsed(s: Bytes)
    requires TakeStamped(s).Done?
    ensures FitsStamped(TakeStamped(s).value)
    ensures s == EncodeStamped(TakeStamped(s).value) + TakeStamped(s).rest
  {
    var p1 := TakeNumber(s, 8);
    var p2 := TakeNumber(p1.rest, 2);
    var p3 := TakeSigned(p2.rest, p2.value);
    NumberParsed(s, 8);
    NumberParsed(p1.rest, 2);
    FieldParsed(p3.rest, 2);
    var st := TakeStamped(s).value;
    SignedParsed(p2.rest, p2.value, st);
    StampedPieces(s, Encode(st.timestamp, 8), Encode(st.entryType, 2), EncodeSigned(st), Field(st.extensions, 2),
                  TakeStamped(s).rest);
  }

  lemma {:induction false} PackedChunks(bs: Bytes)
    ensures AllHashes(Chunks(bs))
    ensures |Packed(Chunks(bs))| <= |bs| < |Packed(Chunks(bs))| + 32
    ensures bs[..|Packed(Chunks(bs))|] == Packed(Chunks(bs))
    decreases |bs|
  {
    if |bs| >= 32 {
      PackedChunks(bs[32..]);
      var more := Packed(Chunks(bs[32..]));
      assert Chunks(bs)[1..] == Chunks(bs[32..]);
      assert Packed(Chunks(bs)) == bs[..32] + more;
      assert bs[..32 + |more|] == bs[..32] + bs[32..][..|more|];
    }
  }

  /** Whatever the parser accepts is a leaf the format can carry, and its encoding is what was read:
      octet for octet, unless the list of fingerprints had a remainder that is dropped. */
  lemma LeafParsed(s: Bytes)
    requires TakeLeaf(s).Done?
    ensures FitsLeaf(TakeLeaf(s).value)
    ensures |EncodeLeaf(TakeLeaf(s).value)| + |TakeLeaf(s).rest| <= |s|
    ensures |s| < |EncodeLeaf(TakeLeaf(s).value)| + |TakeLeaf(s).rest| + 32
    ensures |EncodeLeaf(TakeLeaf(s).value)| + |TakeLeaf(s).rest| == |s| ==>
              s == EncodeLeaf(TakeLeaf(s).value) + TakeLeaf(s).rest
  {
    var l := TakeLeaf(s).value;
    var s1 := TakeStamped(s).rest;
    StampedParsed(s);
    var s2 := TakePreCertificate(s1, l.stamped.entryType).rest;
    if l.stamped.entryType == PRECERT {
      FieldParsed(s1, 3);
    }
    FieldParsed(s2, 2);
    var chain := TakeField(s2, 2).value;
    PackedChunks(chain);
    PackedLength(l.fingerprints);
    LeafPieces(l, s, s1, s2, chain);
  }

  lemma LeafPieces(l: TileLeaf, s: Bytes, s1: Bytes, s2: Bytes, chain: Bytes)
    requires FitsLeaf(l) && |chain| < Pow256(2) && |Packed(l.fingerprints)| <= |chain|
    requires |chain| < |Packed(l.fingerprints)| + 32 && chain[..|Packed(l.fingerprints)|] == Packed(l.fingerprints)
    requires s == EncodeStamped(l.stamped) + s1 && s1 == EncodePreCertificate(l) + s2
    requires Field(chain, 2) <= s2
    ensures
      var rest := s2[|Field(chain, 2)|..];
      && |EncodeLeaf(l)| + |rest| <= |s| < |EncodeLeaf(l)| + |rest| + 32
      && (|EncodeLeaf(l)| + |rest| == |s| ==> s == EncodeLeaf(l) + rest)
  {
    var rest := s2[|Field(chain, 2)|..];
    PackedLength(l.fingerprints);
    if |Packed(l.fingerprints)| == |chain| {
      assert chain == Packed(l.fingerprints);
      assert s2 == Field(chain, 2) + rest;
      Regroup(EncodePreCertificate(l), Field(chain, 2), rest);
      Regroup(EncodeStamped(l.stamped), EncodePreCertificate(l) + Field(chain, 2), rest);
    }
  }

  // ----------------------------------------------------------- truncation

  lemma SignedIsStable(s: Bytes, entryType: int, more: Bytes)
    requires TakeSigned(s, entryType).Done?
    ensures TakeSigned(s + more, entryType)
         == Done(TakeSigned(s, entryType).value, TakeSigned(s, entryType).rest + more)
  {
    if entryType == X509 {
      FieldIsStable(s, 3, more);
    } else {
      TakeIsStable(s, 32, more);
      FieldIsStable(Take(s, 32).rest, 3, more);
    }
  }

  lemma StampedIsStable(s: Bytes, more: Bytes)
    requires TakeStamped(s).Done?
    ensures TakeStamped(s + more) == Done(TakeStamped(s).value, TakeStamped(s).rest + more)
  {
    var p1 := TakeNumber(s, 8);
    var p2 := TakeNumber(p1.rest, 2);
    var p3 := TakeSigned(p2.rest, p2.value);
    NumberIsStable(s, 8, more);
    NumberIsStable(p1.rest, 2, more);
    SignedIsStable(p2.rest, p2.value, more);
    FieldIsStable(p3.rest, 2, more);
  }

  /** A leaf that reads in full reads the same whatever follows. */
  lemma LeafIsStable(s: Bytes, more: Bytes)
    requires TakeLeaf(s).Done?
    ensures TakeLeaf(s + more) == Done(TakeLeaf(s).value, TakeLeaf(s).rest + more)
  {
    var p1 := TakeStamped(s);
    var p2 := TakePreCertificate(p1.rest, p1.value.entryType);
    StampedIsStable(s, more);
    if p1.value.entryType == PRECERT {
      FieldIsStable(p1.rest, 3, more);
    }
    FieldIsStable(p2.rest, 2, more);
  }

  // ---------------------------------------------------------------- tiles

  predicate AllFit(ls: seq<TileLeaf>) {
    forall i | 0 <= i < |ls| :: FitsLeaf(ls[i])
  }

  function EncodeFn(): TileLeaf -> Bytes {
    (l: TileLeaf) => if FitsLeaf(l) then EncodeLeaf(l) else []
  }

  function FitsFn(): TileLeaf -> bool {
    (l: TileLeaf) => FitsLeaf(l)
  }

  /** The leaves' encodings end to end. */
  function EncodeTile(ls: seq<TileLeaf>): (bs: Bytes) {
    Joined(EncodeFn(), ls)
  }

  lemma LeafFormat()
    ensures Shortens(TakeLeaf) && Stable(TakeLeaf) && Codec(TakeLeaf, EncodeFn(), FitsFn()) && HeaderOf(TakeLeaf, 10)
  {
    forall s, more
      ensures StableAt(TakeLeaf, s, more)
    {
      if TakeLeaf(s).Done? {
        LeafIsStable(s, more);
      }
    }
    forall l, rest | FitsFn()(l)
      ensures UndoneAt(TakeLeaf, EncodeFn(), l, rest)
    {
      LeafEncoded(l, rest);
    }
    forall s
      ensures HeaderAt(TakeLeaf, 10, s)
    {
    }
  }

  /** Parsing the encoding of any list gives the list, or as much of it as
      was asked for. */
  lemma TileRoundTrip(ls: seq<TileLeaf>, max: int)
    requires AllFit(ls)
    ensures Tile(EncodeTile(ls), max) == Leaves(if max <= 0 || |ls| <= max then ls else ls[..max])
  {
    LeafFormat();
    FramesRoundTrip(TakeLeaf, EncodeFn(), FitsFn(), ls, max, 0);
  }

  /** Cutting any tile short, well formed or not, yields an error or a leading
      part of what the whole tile yields: never a leaf that is not there. */
  lemma TruncationIsSafe(data: Bytes, cut: nat, max: int)
    requires cut <= |data| && Tile(data, max).Leaves?
    ensures Tile(data[..cut], max).Leaves? ==> LeadingPart(Tile(data[..cut], max).leaves, Tile(data, max).leaves)
  {
    LeafFormat();
    CutIsLeading(TakeLeaf, data, cut, max);
  }

  /** Exactly which cuts of an encoded tile go unnoticed: those less than ten
      octets into a leaf. Every whole leaf before the cut is then returned, and
      any other cut is an error. */
  lemma CutTile(ls: seq<TileLeaf>, k: nat, cut: nat)
    requires AllFit(ls) && k < |ls| && cut < |EncodeLeaf(ls[k])|
    ensures |EncodeTile(ls[..k])| + cut < |EncodeTile(ls)|
    ensures Tile(EncodeTile(ls)[..|EncodeTile(ls[..k])| + cut], 0) == if cut < 10 then Leaves(ls[..k]) else Broken
  {
    AllFitFn(ls);
    EncodeFnIs(ls[k]);
    LeafFormat();
    CutEncoded(TakeLeaf, EncodeFn(), FitsFn(), ls, k, cut, EncodeTile(ls), EncodeTile(ls[..k]));
  }

  lemma CutEncoded(take: Bytes -> Parse<TileLeaf>, encode: TileLeaf -> Bytes, fits: TileLeaf -> bool,
                   ls: seq<TileLeaf>, k: nat, cut: nat, whole: Bytes, before: Bytes)
    requires Shortens(take) && Stable(take) && Codec(take, encode, fits) && HeaderOf(take, 10)
    requires k < |ls| && cut < |encode(ls[k])| && forall i | 0 <= i < |ls| :: fits(ls[i])
    requires whole == Joined(encode, ls) && before == Joined(encode, ls[..k])
    ensures |before| + cut < |whole|
    ensures Frames(take, whole[..|before| + cut], 0, 0) == if cut < 10 then Leaves(ls[..k]) else Broken
  {
    FramesCut(take, encode, fits, 10, ls, k, cut, 0);
  }

  lemma EncodeFnIs(l: TileLeaf)
    requires FitsLeaf(l)
    ensures EncodeFn()(l) == EncodeLeaf(l)
  {
  }

  lemma AllFitFn(ls: seq<TileLeaf>)
    requires AllFit(ls)
    ensures forall i | 0 <= i < |ls| :: FitsFn()(ls[i])
  {
  }
}
