/** Leaves of a static-ct-api data tile: parser, encoder, truncation. */
module TileLeaves {
  import opened Octets
  import opened Wire
  import opened Framing

  const X509 := 0
  const PRECERT := 1

  /** The value of an issuer key hash that was never read. */
  const UNSET: Bytes := [0, 0, 0, 0, 0, 0, 0, 0, 0, 0, 0, 0, 0, 0, 0, 0,
                         0, 0, 0, 0, 0, 0, 0, 0, 0, 0, 0, 0, 0, 0, 0, 0]

  /** What section 3.4 of RFC 6962 calls a TimestampedEntry. `certificate` is
      empty for a precertificate, `keyHash` and `tbs` are unset otherwise. */
  datatype Stamped = Stamped(timestamp: int, entryType: int, certificate: Bytes, keyHash: Bytes, tbs: Bytes,
                             extensions: Bytes)

  datatype TileLeaf = TileLeaf(stamped: Stamped, preCertificate: Bytes, fingerprints: seq<Bytes>)
  {
    /** The certificate field, which a precertificate fills late. */
    function Certificate(): Bytes {
      if stamped.entryType == PRECERT then preCertificate else stamped.certificate
    }
  }

  // ------------------------------------------------------------ the parser

  datatype Signed = Signed(certificate: Bytes, keyHash: Bytes, tbs: Bytes)

  function TakeSigned(s: Bytes, entryType: int): (p: Parse<Signed>)
    ensures p.Done? ==> |p.rest| <= |s|
    ensures !p.Ended?
  {
    if entryType == X509 then
      match TakeField(s, 3)
      case Done(cert, rest) => Done(Signed(cert, UNSET, []), rest)
      case _ => Bad
    else if entryType == PRECERT then
      match Take(s, 32)
      case Done(hash, s') =>
        (match TakeField(s', 3)
         case Done(tbs, rest) => Done(Signed([], hash, tbs), rest)
         case _ => Bad)
      case _ => Bad
    else Bad
  }

  /** Only a header cut short counts as the end of the input; every later
      shortage is an error. */
  function TakeStamped(s: Bytes): (p: Parse<Stamped>)
    ensures p.Done? ==> |p.rest| < |s|
    ensures p.Ended? <==> |s| < 10
  {
    match TakeNumber(s, 8)
    case Done(ts, s1) =>
      (match TakeNumber(s1, 2)
       case Done(ty, s2) =>
         (match TakeSigned(s2, ty)
          case Done(sg, s3) =>
            (match TakeField(s3, 2)
             case Done(ext, rest) => Done(Stamped(ts, ty, sg.certificate, sg.keyHash, sg.tbs, ext), rest)
             case _ => Bad)
          case _ => Bad)
       case _ => Ended)
    case _ => Ended
  }

  /** The fingerprints packed in a field; a short remainder is dropped. */
  function Chunks(bs: Bytes): (fps: seq<Bytes>) {
    if |bs| < 32 then [] else [bs[..32]] + Chunks(bs[32..])
  }

  function TakePreCertificate(s: Bytes, entryType: int): (p: Parse<Bytes>)
    ensures p.Done? ==> |p.rest| <= |s|
    ensures !p.Ended?
  {
    if entryType != PRECERT then Done([], s)
    else
      match TakeField(s, 3)
      case Done(cert, rest) => Done(cert, rest)
      case _ => Bad
  }

  function TakeLeaf(s: Bytes): (p: Parse<TileLeaf>)
    ensures p.Done? ==> |p.rest| < |s|
    ensures p.Ended? <==> |s| < 10
  {
    match TakeStamped(s)
    case Done(st, s1) =>
      (match TakePreCertificate(s1, st.entryType)
       case Done(pre, s2) =>
         (match TakeField(s2, 2)
          case Done(chain, rest) => Done(TileLeaf(st, pre, Chunks(chain)), rest)
          case _ => Bad)
       case _ => Bad)
    case Ended => Ended
    case Bad => Bad
  }

  /** A tile: leaves until the input or the quota is used up. */
  ghost function Tile(data: Bytes, max: int): (r: Entries<TileLeaf>) {
    Frames(TakeLeaf, data, max, 0)
  }

  // --------------------------------------------- the parser as it reads

  datatype Outcome<T> = Got(value: T) | NoMore | Wrong

  predicate Tells<T(==)>(o: Outcome<T>, p: Parse<T>) {
    match p
    case Done(v, _) => o == Got(v)
    case Ended => o == NoMore
    case Bad => o == Wrong
  }

  method ReadSigned(r: Reader, entryType: int) returns (o: Outcome<Signed>)
    requires r.Valid()
    modifies r
    ensures r.Moved(TakeSigned(old(r.Rest()), entryType))
    ensures Tells(o, TakeSigned(old(r.Rest()), entryType))
  {
    if entryType == X509 {
      var ok, cert := r.ReadField(3);
      if !ok {
        return Wrong;
      }
      return Got(Signed(cert, UNSET, []));
    } else if entryType == PRECERT {
      var ok, hash := r.ReadFull(32);
      if !ok {
        return Wrong;
      }
      var ok', tbs := r.ReadField(3);
      if !ok' {
        return Wrong;
      }
      return Got(Signed([], hash, tbs));
    } else {
      return Wrong;
    }
  }

  method ReadStamped(r: Reader) returns (o: Outcome<Stamped>)
    requires r.Valid()
    modifies r
    ensures r.Moved(TakeStamped(old(r.Rest())))
    ensures Tells(o, TakeStamped(old(r.Rest())))
  {
    var ok, ts := r.ReadNumber(8);
    if !ok {
      return NoMore;
    }
    var ok', ty := r.ReadNumber(2);
    if !ok' {
      return NoMore;
    }
    var signed := ReadSigned(r, ty);
    if !signed.Got? {
      return Wrong;
    }
    var ok'', ext := r.ReadField(2);
    if !ok'' {
      return Wrong;
    }
    o := Got(Stamped(ts, ty, signed.value.certificate, signed.value.keyHash, signed.value.tbs, ext));
  }

  /** Cuts the packed fingerprints apart, thirty-two octets a step. */
  method SplitFingerprints(bs: Bytes) returns (fps: seq<Bytes>)
    ensures fps == Chunks(bs)
  {
    fps := [];
    var i := 0;
    while i + 32 <= |bs|
      invariant 0 <= i <= |bs|
      invariant fps + Chunks(bs[i..]) == Chunks(bs)
    {
      assert bs[i..][..32] == bs[i..i + 32] && bs[i..][32..] == bs[i + 32..];
      fps := fps + [bs[i..i + 32]];
      i := i + 32;
    }
  }

  method ParseTileLeaf(r: Reader) returns (o: Outcome<TileLeaf>)
    requires r.Valid()
    modifies r
    ensures r.Moved(TakeLeaf(old(r.Rest())))
    ensures Tells(o, TakeLeaf(old(r.Rest())))
  {
    var stamped := ReadStamped(r);
    if !stamped.Got? {
      return if stamped.NoMore? then NoMore else Wrong;
    }
    var pre: Bytes := [];
    if stamped.value.entryType == PRECERT {
      var ok;
      ok, pre := r.ReadField(3);
      if !ok {
        return Wrong;
      }
    }
    var ok, chain := r.ReadField(2);
    if !ok {
      return Wrong;
    }
    var fps := SplitFingerprints(chain);
    o := Got(TileLeaf(stamped.value, pre, fps));
  }

  method ParseTile(data: Bytes, max: int) returns (result: Entries<TileLeaf>)
    ensures result == Tile(data, max)
  {
    var r := new Reader(data);
    var leaves: seq<TileLeaf> := [];
    ghost var all := Frames(TakeLeaf, data, max, 0);
    var left := r.Len();
    while left > 0 && Wanted(max, |leaves|)
      invariant r.Valid() && fresh(r) && left == |r.Rest()|
      invariant all == Prepend(leaves, Frames(TakeLeaf, r.Rest(), max, |leaves|))
      decreases left
    {
      Turn(TakeLeaf, all, leaves, r.Rest(), max);
      var o := ParseTileLeaf(r);
      match o
      case NoMore => return Leaves(leaves);
      case Wrong => return Broken;
      case Got(leaf) =>
        leaves := leaves + [leaf];
        left := r.Len();
    }
    result := Leaves(leaves);
  }
}
