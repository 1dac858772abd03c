/** get-entries responses, and their agreement with tile leaves. */
module Rfc6962 {
  import opened Octets
  import opened Wrappers
  import opened Wire
  import opened TileLeaves
  import opened TileCodec

  type Hash = Bytes -> Bytes

  datatype Kind = EntryX509 | EntryPrecert

  /** A log entry normalised across protocols, its index left to the caller. */
  datatype LogLeaf = LogLeaf(kind: Kind, timestamp: int, certificate: Bytes, tbs: Bytes, keyHash: Bytes,
                             extensions: Bytes, fingerprints: seq<Bytes>)

  /** From a tile's leaf. */
  function TileLeafToLogLeaf(t: TileLeaf): LogLeaf {
    LogLeaf(if t.stamped.entryType == PRECERT then EntryPrecert else EntryX509,
            t.stamped.timestamp, t.Certificate(), t.stamped.tbs, t.stamped.keyHash, t.stamped.extensions,
            t.fingerprints)
  }

  // ------------------------------------------------------------ the parser

  /** leaf_input: version 0, leaf type 0, then the timestamped entry. What
      follows it is ignored. */
  function LeafInput(data: Bytes): (r: Option<LogLeaf>) {
    if |data| < 2 || data[0] != 0 || data[1] != 0 then None
    else
      match TakeStamped(data[2..])
      case Done(st, _) => Some(FromStamped(st))
      case _ => None
  }

  function FromStamped(st: Stamped): LogLeaf {
    LogLeaf(if st.entryType == PRECERT then EntryPrecert else EntryX509,
            st.timestamp, st.certificate, st.tbs, st.keyHash, st.extensions, [])
  }

  function Chain(bs: Bytes): (r: Option<seq<Bytes>>)
    decreases |bs|
  {
    if bs == [] then Some([])
    else
      match TakeField(bs, 3)
      case Done(cert, rest) => After([cert], Chain(rest))
      case _ => None
  }

  function After(certs: seq<Bytes>, o: Option<seq<Bytes>>): Option<seq<Bytes>> {
    if o.None? then None else Some(certs + o.value)
  }

  /** One turn of the loop that splits a chain, on values. */
  lemma ChainTurn(all: Option<seq<Bytes>>, certs: seq<Bytes>, s: Bytes)
    requires s != [] && all == After(certs, Chain(s))
    ensures TakeField(s, 3).Done? ==> all == After(certs + [TakeField(s, 3).value], Chain(TakeField(s, 3).rest))
    ensures !TakeField(s, 3).Done? ==> all == None
  {
    if TakeField(s, 3).Done? {
      AfterTwice(certs, [TakeField(s, 3).value], Chain(TakeField(s, 3).rest));
    }
  }

  lemma AfterTwice(a: seq<Bytes>, b: seq<Bytes>, o: Option<seq<Bytes>>)
    ensures After(a, After(b, o)) == After(a + b, o)
  {
    if o.Some? {
      assert a + (b + o.value) == a + b + o.value;
    }
  }

  lemma AfterNothing(o: Option<seq<Bytes>>)
    ensures After([], o) == o
  {
    if o.Some? {
      assert [] + o.value == o.value;
    }
  }

  function Fingerprints(hash: Hash, certs: seq<Bytes>): (fps: seq<Bytes>)
    ensures |fps| == |certs|
  {
    if certs == [] then [] else [hash(certs[0])] + Fingerprints(hash, certs[1..])
  }

  /** extra_data: a precertificate is preceded by the certificate as issued. */
  function ExtraData(data: Bytes, leaf: LogLeaf, hash: Hash): (r: Option<LogLeaf>) {
    if leaf.kind == EntryX509 then ChainField(data, leaf, hash)
    else
      match TakeField(data, 3)
      case Done(cert, rest) => ChainField(rest, leaf.(certificate := cert), hash)
      case _ => None
  }

  function ChainField(data: Bytes, leaf: LogLeaf, hash: Hash): (r: Option<LogLeaf>) {
    match TakeField(data, 3)
    case Done(bs, _) =>
      (match Chain(bs)
       case Some(certs) => Some(leaf.(fingerprints := leaf.fingerprints + Fingerprints(hash, certs)))
       case None => None)
    case _ => None
  }

  function GetEntry(leafInput: Bytes, extraData: Bytes, hash: Hash): (r: Option<LogLeaf>) {
    match LeafInput(leafInput)
    case Some(leaf) => ExtraData(extraData, leaf, hash)
    case None => None
  }

  // --------------------------------------------- the parser as it reads

  method ParseLeafInput(data: Bytes) returns (o: Option<LogLeaf>)
    ensures o == LeafInput(data)
  {
    var r := new Reader(data);
    var ok, version := r.ReadNumber(1);
    if data != [] {
      OneOctet(data);
    }
    if !ok || version != 0 {
      return None;
    }
    var ok', leafType := r.ReadNumber(1);
    if |data| > 1 {
      OneOctet(data[1..]);
    }
    if !ok' || leafType != 0 {
      return None;
    }
    assert data[1..][1..] == data[2..];
    var st := ReadStamped(r);
    if !st.Got? {
      return None;
    }
    o := Some(FromStamped(st.value));
  }

  lemma OneOctet(s: Bytes)
    requires s != []
    ensures TakeNumber(s, 1) == Done(s[0], s[1..])
  {
    assert s[..1] == [s[0]] && [s[0]][..0] == [];
    assert Number([s[0]]) == 256 * Number([]) + s[0];
  }

  lemma {:induction false} FingerprintsSnoc(hash: Hash, certs: seq<Bytes>, cert: Bytes)
    ensures Fingerprints(hash, certs + [cert]) == Fingerprints(hash, certs) + [hash(cert)]
  {
    if certs == [] {
      assert certs + [cert] == [cert];
    } else {
      assert (certs + [cert])[1..] == certs[1..] + [cert];
      FingerprintsSnoc(hash, certs[1..], cert);
    }
  }

  /** Splits a chain and hashes each certificate as it is read. */
  method ParseCertChain(bs: Bytes, leaf: LogLeaf, hash: Hash) returns (o: Option<LogLeaf>, chain: seq<Bytes>)
    ensures Chain(bs).None? ==> o == None
    ensures Chain(bs).Some? ==> chain == Chain(bs).value
    ensures Chain(bs).Some? ==> o == Some(leaf.(fingerprints := leaf.fingerprints + Fingerprints(hash, chain)))
  {
    var r := new Reader(bs);
    chain := [];
    var fps := leaf.fingerprints;
    ghost var all := Chain(bs);
    AfterNothing(all);
    var left := r.Len();
    while left > 0
      invariant r.Valid() && fresh(r) && left == |r.Rest()|
      invariant fps == leaf.fingerprints + Fingerprints(hash, chain)
      invariant all == After(chain, Chain(r.Rest()))
      decreases left
    {
      ChainTurn(all, chain, r.Rest());
      var ok, cert := r.ReadField(3);
      if !ok {
        return None, [];
      }
      FingerprintsSnoc(hash, chain, cert);
      fps := fps + [hash(cert)];
      chain := chain + [cert];
      left := r.Len();
    }
    o := Some(leaf.(fingerprints := fps));
  }

  method ParseExtraData(data: Bytes, leaf: LogLeaf, hash: Hash) returns (o: Option<LogLeaf>)
    ensures o == ExtraData(data, leaf, hash)
  {
    var r := new Reader(data);
    var filled := leaf;
    if leaf.kind == EntryPrecert {
      var ok, cert := r.ReadField(3);
      if !ok {
        return None;
      }
      filled := leaf.(certificate := cert);
    }
    var ok, bs := r.ReadField(3);
    if !ok {
      return None;
    }
    var chain;
    o, chain := ParseCertChain(bs, filled, hash);
  }

  // ------------------------------------------------------ one log entry

  /** What a log stores, before either protocol encodes it. */
  datatype LogEntry = LogEntry(stamped: Stamped, preCertificate: Bytes, chain: seq<Bytes>)

  function EncodeChain(certs: seq<Bytes>): (bs: Bytes)
    requires forall i | 0 <= i < |certs| :: |certs[i]| < Pow256(3)
  {
    if certs == [] then [] else Field(certs[0], 3) + EncodeChain(certs[1..])
  }

  /** What get-entries can carry. */
  predicate Fits(e: LogEntry) {
    && FitsStamped(e.stamped)
    && |e.preCertificate| < Pow256(3)
    && (e.stamped.entryType == 0 ==> e.preCertificate == [])
    && (forall i | 0 <= i < |e.chain| :: |e.chain[i]| < Pow256(3))
    && |EncodeChain(e.chain)| < Pow256(3)
  }

  ghost predicate HashIsSha256Sized(hash: Hash) {
    forall bs :: |hash(bs)| == 32
  }

  function EncodeLeafInput(e: LogEntry): Bytes
    requires Fits(e)
  {
    [0, 0] + EncodeStamped(e.stamped)
  }

  function EncodeExtraData(e: LogEntry): Bytes
    requires Fits(e)
  {
    (if e.stamped.entryType == 1 then Field(e.preCertificate, 3) else []) + Field(EncodeChain(e.chain), 3)
  }

  function AsTileLeaf(e: LogEntry, hash: Hash): TileLeaf {
    TileLeaf(e.stamped, e.preCertificate, Fingerprints(hash, e.chain))
  }

  lemma {:induction false} ChainEncoded(certs: seq<Bytes>)
    requires forall i | 0 <= i < |certs| :: |certs[i]| < Pow256(3)
    ensures Chain(EncodeChain(certs)) == Some(certs)
  {
    if certs != [] {
      ChainFirst(certs[0], EncodeChain(certs[1..]));
      ChainEncoded(certs[1..]);
      assert [certs[0]] + certs[1..] == certs;
    }
  }

  lemma ChainFirst(cert: Bytes, rest: Bytes)
    requires |cert| < Pow256(3)
    ensures Chain(Field(cert, 3) + rest) == After([cert], Chain(rest))
  {
    FieldEncoded(cert, 3, rest);
  }

  lemma {:induction false} FingerprintsAreHashes(hash: Hash, certs: seq<Bytes>)
    requires HashIsSha256Sized(hash)
    ensures AllHashes(Fingerprints(hash, certs))
    ensures forall i | 0 <= i < |certs| :: Fingerprints(hash, certs)[i] == hash(certs[i])
  {
    if certs != [] {
      FingerprintsAreHashes(hash, certs[1..]);
    }
  }

  lemma LeafInputEncoded(e: LogEntry)
    requires Fits(e)
    ensures LeafInput(EncodeLeafInput(e)) == Some(FromStamped(e.stamped))
  {
    var data := EncodeLeafInput(e);
    assert data[2..] == EncodeStamped(e.stamped) + [];
    StampedEncoded(e.stamped, []);
  }

  lemma ChainFieldEncoded(certs: seq<Bytes>, leaf: LogLeaf, hash: Hash)
    requires forall i | 0 <= i < |certs| :: |certs[i]| < Pow256(3)
    requires |EncodeChain(certs)| < Pow256(3)
    ensures ChainField(Field(EncodeChain(certs), 3), leaf, hash)
         == Some(leaf.(fingerprints := leaf.fingerprints + Fingerprints(hash, certs)))
  {
    assert Field(EncodeChain(certs), 3) + [] == Field(EncodeChain(certs), 3);
    FieldEncoded(EncodeChain(certs), 3, []);
    ChainEncoded(certs);
  }

  /** What an entry comes to, whichever protocol served it: a precertificate's certificate is the one
      handed in beside it. */
  function Normalised(e: LogEntry, hash: Hash): LogLeaf {
    var st := e.stamped;
    if st.entryType == 0
    then LogLeaf(EntryX509, st.timestamp, st.certificate, [], seq(32, _ => 0), st.extensions,
                 Fingerprints(hash, e.chain))
    else LogLeaf(EntryPrecert, st.timestamp, e.preCertificate, st.tbs, st.keyHash, st.extensions,
                 Fingerprints(hash, e.chain))
  }

  /** The get-entries pair of an entry gives its normalised leaf. */
  lemma GetEntryEncoded(e: LogEntry, hash: Hash)
    requires Fits(e)
    ensures GetEntry(EncodeLeafInput(e), EncodeExtraData(e), hash) == Some(Normalised(e, hash))
    ensures TileLeafToLogLeaf(AsTileLeaf(e, hash)) == Normalised(e, hash)
  {
    LeafInputEncoded(e);
    var leaf := FromStamped(e.stamped);
    if e.stamped.entryType == PRECERT {
      FieldEncoded(e.preCertificate, 3, Field(EncodeChain(e.chain), 3));
      ChainFieldEncoded(e.chain, leaf.(certificate := e.preCertificate), hash);
    } else {
      assert [] + Field(EncodeChain(e.chain), 3) == Field(EncodeChain(e.chain), 3);
      ChainFieldEncoded(e.chain, leaf, hash);
    }
    assert [] + Fingerprints(hash, e.chain) == Fingerprints(hash, e.chain);
  }

  // ---------------------------------------------------------- the way back

  lemma {:induction false} ChainParsed(bs: Bytes)
    requires Chain(bs).Some?
    ensures forall i | 0 <= i < |Chain(bs).value| :: |Chain(bs).value[i]| < Pow256(3)
    ensures EncodeChain(Chain(bs).value) == bs
    decreases |bs|
  {
    if bs != [] {
      FieldParsed(bs, 3);
      ChainParsed(TakeField(bs, 3).rest);
      assert Chain(bs).value == [TakeField(bs, 3).value] + Chain(TakeField(bs, 3).rest).value;
    }
  }

  lemma ChainFieldParsed(data: Bytes, leaf: LogLeaf, hash: Hash) returns (chain: seq<Bytes>)
    requires ChainField(data, leaf, hash).Some?
    ensures forall i | 0 <= i < |chain| :: |chain[i]| < Pow256(3)
    ensures |EncodeChain(chain)| < Pow256(3) && Field(EncodeChain(chain), 3) <= data
    ensures ChainField(data, leaf, hash)
         == Some(leaf.(fingerprints := leaf.fingerprints + Fingerprints(hash, chain)))
  {
    var bs := TakeField(data, 3).value;
    FieldParsed(data, 3);
    ChainParsed(bs);
    chain := Chain(bs).value;
  }

  lemma LeafInputParsed(data: Bytes) returns (st: Stamped)
    requires LeafInput(data).Some?
    ensures FitsStamped(st) && [0, 0] + EncodeStamped(st) <= data
    ensures LeafInput(data) == Some(FromStamped(st))
  {
    st := TakeStamped(data[2..]).value;
    StampedParsed(data[2..]);
    BehindTwo(data, EncodeStamped(st), TakeStamped(data[2..]).rest);
  }

  lemma BehindTwo(data: Bytes, mid: Bytes, rest: Bytes)
    requires |data| >= 2 && data[0] == 0 && data[1] == 0 && data[2..] == mid + rest
    ensures [0, 0] + mid <= data
  {
    assert data == [0, 0] + data[2..];
    assert data == [0, 0] + mid + rest;
  }

  lemma ExtraDataParsed(data: Bytes, st: Stamped, hash: Hash) returns (pre: Bytes, chain: seq<Bytes>)
    requires FitsStamped(st) && ExtraData(data, FromStamped(st), hash).Some?
    ensures Fits(LogEntry(st, pre, chain)) && EncodeExtraData(LogEntry(st, pre, chain)) <= data
    ensures ExtraData(data, FromStamped(st), hash) == Some(Normalised(LogEntry(st, pre, chain), hash))
  {
    var leaf := FromStamped(st);
    if st.entryType == PRECERT {
      pre := TakeField(data, 3).value;
      FieldParsed(data, 3);
      chain := ChainFieldParsed(TakeField(data, 3).rest, leaf.(certificate := pre), hash);
    } else {
      pre := [];
      chain := ChainFieldParsed(data, leaf, hash);
      assert [] + Field(EncodeChain(chain), 3) == Field(EncodeChain(chain), 3);
      assert UNSET == seq(32, _ => 0);
    }
    assert [] + Fingerprints(hash, chain) == Fingerprints(hash, chain);
  }

  /** Whatever pair the parser accepts begins with the encoding of an entry, and the result is that
      entry's normalised leaf: what follows on either side is ignored and nothing else is. */
  lemma GetEntryParsed(leafInput: Bytes, extraData: Bytes, hash: Hash) returns (e: LogEntry)
    requires GetEntry(leafInput, extraData, hash).Some?
    ensures Fits(e)
    ensures EncodeLeafInput(e) <= leafInput && EncodeExtraData(e) <= extraData
    ensures GetEntry(leafInput, extraData, hash) == Some(Normalised(e, hash))
  {
    var st := LeafInputParsed(leafInput);
    var pre, chain := ExtraDataParsed(extraData, st, hash);
    e := LogEntry(st, pre, chain);
  }

  /** Both protocols give one leaf for one entry whose fingerprints fit a tile's list, and its fingerprints are the
      hashes of the chain's certificates in order. */
  lemma ProtocolsConverge(e: LogEntry, hash: Hash, rest: Bytes)
    requires Fits(e) && 32 * |e.chain| < 0x1_0000 && HashIsSha256Sized(hash)
    ensures FitsLeaf(AsTileLeaf(e, hash))
    ensures var p := TakeLeaf(EncodeLeaf(AsTileLeaf(e, hash)) + rest);
            && p.Done?
            && p.rest == rest
            && TileLeafToLogLeaf(p.value) == Normalised(e, hash)
            && GetEntry(EncodeLeafInput(e), EncodeExtraData(e), hash) == Some(Normalised(e, hash))
            && |p.value.fingerprints| == |e.chain|
            && forall i | 0 <= i < |e.chain| :: p.value.fingerprints[i] == hash(e.chain[i])
  {
    TypeFits();
    FingerprintsAreHashes(hash, e.chain);
    LeafEncoded(AsTileLeaf(e, hash), rest);
    GetEntryEncoded(e, hash);
  }
}
