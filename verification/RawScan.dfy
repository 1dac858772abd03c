/** The sequential page scan that collects cert_hash blobs from a SQLite file.
    The walk over a cell is stated for any decoder of varints; the scan uses
    the one in `Varint`. */
module RawScan {
  import opened Octets
  import opened Wrappers
  import opened Varint

  /** Position of cert_hash in a record. */
  const CERT_HASH_COL := 17

  const LEAF_TABLE := 0x0D

  type Decoder = Bytes -> Decoded

  ghost predicate SoundAt(dec: Decoder, b: Bytes) {
    dec(b).size <= |b| && dec(b).value >= 0
  }

  ghost predicate Sound(dec: Decoder) {
    forall b :: SoundAt(dec, b)
  }

  lemma DecodeIsSound()
    ensures Sound(Decode)
  {
    forall b
      ensures SoundAt(Decode, b)
    {
      DecodeFits(b, 0, 0);
    }
  }

  /** The stored size of a value of the given serial type. */
  function ColDataSize(tc: int): (n: nat) {
    if tc == 0 || tc == 8 || tc == 9 then 0
    else if 1 <= tc <= 4 then tc
    else if tc == 5 then 6
    else if tc == 6 || tc == 7 then 8
    else if tc >= 12 then (tc - 12) / 2
    else 0
  }

  /** The non-empty blob at `off` that a serial type describes, if it is one
      and it is on the page. */
  function BlobAt(page: Bytes, off: nat, tc: int): (r: Option<Bytes>) {
    if tc < 12 || tc % 2 != 0 then None
    else
      var length := (tc - 12) / 2;
      if length == 0 || off + length > |page| then None else Some(page[off..off + length])
  }

  /** The walk over the record header from column `col` on. */
  ghost function Walk(dec: Decoder, page: Bytes, pos: nat, headerEnd: int, dataOff: nat, col: nat): (r: Option<Bytes>)
    requires Sound(dec) && pos <= |page| && headerEnd <= |page|
    decreases |page| - pos
  {
    if pos >= headerEnd then None
    else
      assert SoundAt(dec, page[pos..]);
      var d := dec(page[pos..]);
      if d.size == 0 then None
      else if col == CERT_HASH_COL then BlobAt(page, dataOff, d.value)
      else if dataOff + ColDataSize(d.value) > |page| then None
      else Walk(dec, page, pos + d.size, headerEnd, dataOff + ColDataSize(d.value), col + 1)
  }

  ghost function PayloadAt(dec: Decoder, page: Bytes, start: nat): (r: Option<Bytes>)
    requires Sound(dec) && start <= |page|
  {
    assert SoundAt(dec, page[start..]);
    var d := dec(page[start..]);
    if d.size == 0 || start + d.value > |page| then None
    else Walk(dec, page, start + d.size, start + d.value, start + d.value, 0)
  }

  /** The position after the varint at `off`; its value is not used. */
  ghost function Past(dec: Decoder, page: Bytes, off: nat): (o: Option<nat>)
    requires Sound(dec) && off <= |page|
    ensures o.Some? ==> off < o.value <= |page|
  {
    assert SoundAt(dec, page[off..]);
    var n := dec(page[off..]).size;
    if n == 0 then None else Some(off + n)
  }

  /** Skips the payload size and the rowid. */
  ghost function CertHashAt(dec: Decoder, page: Bytes, cellOff: nat): (r: Option<Bytes>)
    requires Sound(dec) && cellOff <= |page|
  {
    match Past(dec, page, cellOff)
    case None => None
    case Some(pos) =>
      match Past(dec, page, pos)
      case None => None
      case Some(start) => PayloadAt(dec, page, start)
  }

  // ------------------------------------------------- the walk as it runs
  // `Sound(Decode)` always holds, by `DecodeIsSound`; the methods name it so
  // that the walk above is defined.

  method SkipVarint(page: Bytes, off: nat) returns (o: Option<nat>)
    requires Sound(Decode) && off <= |page|
    ensures o == Past(Decode, page, off)
  {
    var _, n := SqliteVarint(page[off..]);
    o := if n == 0 then None else Some(off + n);
  }

  method CertHashFromCell(page: Bytes, cellOff: nat) returns (r: Option<Bytes>)
    requires Sound(Decode) && cellOff <= |page|
    ensures r == CertHashAt(Decode, page, cellOff)
  {
    var afterSize := SkipVarint(page, cellOff);
    if afterSize == None {
      return None;
    }
    var start := SkipVarint(page, afterSize.value);
    if start == None {
      return None;
    }
    r := HashFromPayload(page, start.value);
  }

  /** One turn of the walk, on values. */
  lemma WalkTurn(dec: Decoder, page: Bytes, pos: nat, headerEnd: int, dataOff: nat, col: nat, tc: int, m: nat)
    requires Sound(dec) && pos < headerEnd <= |page| && dec(page[pos..]) == Decoded(tc, m)
    ensures pos + m <= |page| && tc >= 0
    ensures Walk(dec, page, pos, headerEnd, dataOff, col)
         == if m == 0 then None
            else if col == CERT_HASH_COL then BlobAt(page, dataOff, tc)
            else if dataOff + ColDataSize(tc) > |page| then None
            else Walk(dec, page, pos + m, headerEnd, dataOff + ColDataSize(tc), col + 1)
  {
    assert SoundAt(dec, page[pos..]);
  }

  method HashFromPayload(page: Bytes, start: nat) returns (r: Option<Bytes>)
    requires Sound(Decode) && start <= |page|
    ensures r == PayloadAt(Decode, page, start)
  {
    var headerSize, n := SqliteVarint(page[start..]);
    assert SoundAt(Decode, page[start..]);
    if n == 0 {
      return None;
    }
    if start + headerSize > |page| {
      return None;
    }
    r := WalkHeader(page, start + n, start + headerSize);
  }

  method WalkHeader(page: Bytes, start: nat, headerEnd: nat) returns (r: Option<Bytes>)
    requires Sound(Decode) && start <= |page| && headerEnd <= |page|
    ensures r == Walk(Decode, page, start, headerEnd, headerEnd, 0)
  {
    var pos, dataOff, col := start, headerEnd, 0;
    ghost var all := Walk(Decode, page, start, headerEnd, headerEnd, 0);
    while pos < headerEnd
      invariant pos <= |page| && 0 <= dataOff <= |page|
      invariant all == Walk(Decode, page, pos, headerEnd, dataOff, col)
      decreases |page| - pos
    {
      var tc, m := SqliteVarint(page[pos..]);
      WalkTurn(Decode, page, pos, headerEnd, dataOff, col, tc, m);
      if m == 0 {
        return None;
      }
      pos := pos + m;
      if col == CERT_HASH_COL {
        return BlobAt(page, dataOff, tc);
      }
      dataOff := dataOff + ColDataSize(tc);
      if dataOff > |page| {
        return None;
      }
      col := col + 1;
    }
    return None;
  }

  // --------------------------------------------------- what a cell holds

  ghost predicate ReadsWith(dec: Decoder, bs: Bytes, v: int, rest: Bytes) {
    dec(bs + rest) == Decoded(v, |bs|)
  }

  /** The octets are a varint of the value, as the decoder reads varints. */
  ghost predicate Reads(dec: Decoder, bs: Bytes, v: int) {
    |bs| > 0 && forall rest :: ReadsWith(dec, bs, v, rest)
  }

  /** Every encoding of every 64-bit value, in one to nine octets. */
  lemma VarintsRead(bs: Bytes, v: int)
    requires IsVarint(bs, v)
    ensures Reads(Decode, bs, v)
  {
    forall rest
      ensures ReadsWith(Decode, bs, v, rest)
    {
      VarintRoundTrip(bs, v, rest);
    }
  }

  /** A stored value, as section 2.1 of the SQLite file format tells them
      apart. Integers and floats are kept as their octets. */
  datatype Value =
    | Null
    | Int(octets: Bytes)
    | Float(octets: Bytes)
    | Zero
    | One
    | Blob(octets: Bytes)
    | Text(octets: Bytes)
  {
    predicate Valid() {
      && (Int? ==> |octets| in {1, 2, 3, 4, 6, 8})
      && (Float? ==> |octets| == 8)
    }

    function SerialType(): (tc: nat) {
      match this
      case Null => 0
      case Int(o) => if |o| == 8 then 6 else if |o| == 6 then 5 else |o|
      case Float(_) => 7
      case Zero => 8
      case One => 9
      case Blob(o) => 12 + 2 * |o|
      case Text(o) => 13 + 2 * |o|
    }

    function Content(): (bs: Bytes) {
      match this
      case Int(o) => o
      case Float(o) => o
      case Blob(o) => o
      case Text(o) => o
      case _ => []
    }
  }

  /** The size rule agrees with every kind of value. */
  lemma SizeOfValue(v: Value)
    requires v.Valid()
    ensures ColDataSize(v.SerialType()) == |v.Content()|
  {
  }

  /** A column as stored: its serial type, as written and as a number, and its
      octets. */
  datatype Column = Column(code: Bytes, tc: int, data: Bytes)
  {
    ghost predicate Valid(dec: Decoder) {
      Reads(dec, code, tc) && |data| == ColDataSize(tc)
    }

    predicate IsBlob() {
      tc >= 12 && tc % 2 == 0
    }
  }

  /** A table-leaf cell held wholly on its page. */
  datatype Cell = Cell(payloadSize: Bytes, rowid: Bytes, headerSize: Bytes, columns: seq<Column>)
  {
    ghost predicate Valid(dec: Decoder) {
      && (exists v :: Reads(dec, payloadSize, v))
      && (exists v :: Reads(dec, rowid, v))
      && Reads(dec, headerSize, |headerSize| + |Codes(columns)|)
      && AllValid(dec, columns)
    }

    function Payload(): Bytes {
      (headerSize + Codes(columns)) + Datas(columns)
    }

    function Octets(): Bytes {
      payloadSize + (rowid + Payload())
    }

    /** The wanted column, when its serial type is that of a non-empty blob. */
    function CertHash(): Option<Bytes> {
      HashIn(columns, CERT_HASH_COL)
    }
  }

  /** The cell stores the given values, every varint in one of SQLite's forms. */
  ghost predicate Encodes(cell: Cell, row: seq<Value>) {
    && (exists v :: IsVarint(cell.payloadSize, v))
    && (exists v :: IsVarint(cell.rowid, v))
    && IsVarint(cell.headerSize, |cell.headerSize| + |Codes(cell.columns)|)
    && |row| == |cell.columns|
    && forall i | 0 <= i < |row| :: ColumnEncodes(cell.columns[i], row[i])
  }

  predicate ColumnEncodes(c: Column, v: Value) {
    v.Valid() && c.tc == v.SerialType() && c.data == v.Content() && IsVarint(c.code, c.tc)
  }

  lemma {:induction false} LongCodes(cs: seq<Column>)
    requires forall i | 0 <= i < |cs| :: |cs[i].code| == 9
    ensures |Codes(cs)| == 9 * |cs|
  {
    if cs != [] {
      LongCodes(cs[1..]);
    }
  }

  /** Every row of values that 64-bit serial types can describe has a cell. */
  lemma RowHasCell(row: seq<Value>, payloadSize: int, rowid: int) returns (cell: Cell)
    requires 0 <= payloadSize < 0x1_0000_0000_0000_0000 && 0 <= rowid < 0x1_0000_0000_0000_0000
    requires |row| < 0x1_0000_0000
    requires forall v | v in row :: v.Valid() && |v.Content()| < 0x1000_0000_0000_0000
    ensures Encodes(cell, row)
  {
    var columns := seq(|row|, i requires 0 <= i < |row| => ColumnFor(row[i]));
    LongCodes(columns);
    cell := Cell(EncodeLong(payloadSize), EncodeLong(rowid), EncodeLong(9 + 9 * |row|), columns);
    assert IsVarint(cell.payloadSize, payloadSize) && IsVarint(cell.rowid, rowid);
    forall i | 0 <= i < |row| ensures ColumnEncodes(columns[i], row[i]) {
      assert row[i] in row;
    }
  }

  function ColumnFor(v: Value): (c: Column)
    ensures |c.code| == 9
    ensures v.Valid() && |v.Content()| < 0x1000_0000_0000_0000 ==> ColumnEncodes(c, v)
  {
    var tc := v.SerialType();
    Column(EncodeLong(if tc < 0x1_0000_0000_0000_0000 then tc else 0), tc, v.Content())
  }

  /** Every serial type but the two reserved ones is that of some value. */
  lemma TypesCovered(tc: nat) returns (v: Value)
    requires tc != 10 && tc != 11
    ensures v.Valid() && v.SerialType() == tc
  {
    v := if tc == 0 then Null
         else if tc <= 4 then Int(Zeros(tc))
         else if tc == 5 then Int(Zeros(6))
         else if tc == 6 then Int(Zeros(8))
         else if tc == 7 then Float(Zeros(8))
         else if tc == 8 then Zero
         else if tc == 9 then One
         else if tc % 2 == 0 then Blob(Zeros((tc - 12) / 2))
         else Text(Zeros((tc - 13) / 2));
  }

  function Zeros(n: nat): (bs: Bytes)
    ensures |bs| == n
  {
    seq(n, _ => 0)
  }

  /** The row's cert_hash, when it is a non-empty blob. */
  function CertHashOf(row: seq<Value>): Option<Bytes> {
    if |row| > 17 && row[17].Blob? && row[17].octets != [] then Some(row[17].octets) else None
  }

  lemma EncodedIsValid(cell: Cell, row: seq<Value>)
    requires Encodes(cell, row)
    ensures cell.Valid(Decode)
    ensures cell.CertHash() == CertHashOf(row)
  {
    var v :| IsVarint(cell.payloadSize, v);
    var w :| IsVarint(cell.rowid, w);
    VarintsRead(cell.payloadSize, v);
    VarintsRead(cell.rowid, w);
    VarintsRead(cell.headerSize, |cell.headerSize| + |Codes(cell.columns)|);
    forall i | 0 <= i < |cell.columns|
      ensures cell.columns[i].Valid(Decode)
    {
      assert ColumnEncodes(cell.columns[i], row[i]);
      SizeOfValue(row[i]);
      VarintsRead(cell.columns[i].code, cell.columns[i].tc);
    }
    HashOfRow(cell.columns, row);
  }

  lemma HashOfRow(cs: seq<Column>, row: seq<Value>)
    requires |row| == |cs| && (|row| > 17 ==> ColumnEncodes(cs[17], row[17]))
    ensures HashIn(cs, CERT_HASH_COL) == CertHashOf(row)
  {
    if |row| > 17 {
      BlobOfValue(cs[17], row[17]);
    }
  }

  lemma BlobOfValue(c: Column, v: Value)
    requires c.tc == v.SerialType() && v.Valid()
    ensures c.IsBlob() <==> v.Blob?
  {
  }

  ghost predicate AllValid(dec: Decoder, cs: seq<Column>) {
    forall i | 0 <= i < |cs| :: cs[i].Valid(dec)
  }

  function Codes(cs: seq<Column>): Bytes {
    if cs == [] then [] else cs[0].code + Codes(cs[1..])
  }

  function Datas(cs: seq<Column>): Bytes {
    if cs == [] then [] else cs[0].data + Datas(cs[1..])
  }

  function HashIn(cs: seq<Column>, k: nat): Option<Bytes> {
    if k < |cs| && cs[k].IsBlob() && cs[k].data != [] then Some(cs[k].data) else None
  }

  ghost predicate Holds(page: Bytes, off: int, bs: Bytes) {
    0 <= off && off + |bs| <= |page| && page[off..off + |bs|] == bs
  }

  lemma HoldsParts(page: Bytes, off: int, a: Bytes, b: Bytes)
    requires Holds(page, off, a + b)
    ensures Holds(page, off, a) && Holds(page, off + |a|, b)
  {
    var s := page[off..off + |a + b|];
    assert page[off..off + |a|] == s[..|a|] && page[off + |a|..off + |a| + |b|] == s[|a|..];
  }

  lemma ReadOnPage(dec: Decoder, page: Bytes, pos: int, bs: Bytes, v: int)
    requires Holds(page, pos, bs) && Reads(dec, bs, v)
    ensures dec(page[pos..]) == Decoded(v, |bs|)
  {
    var rest := page[pos + |bs|..];
    assert page[pos..] == bs + rest;
    assert ReadsWith(dec, bs, v, rest);
  }

  lemma WalkStep(dec: Decoder, page: Bytes, pos: nat, headerEnd: int, dataOff: nat, col: nat, c: Column)
    requires Sound(dec) && headerEnd <= |page| && c.Valid(dec)
    requires Holds(page, pos, c.code) && pos + |c.code| <= headerEnd && dataOff + |c.data| <= |page|
    ensures Walk(dec, page, pos, headerEnd, dataOff, col)
         == if col == CERT_HASH_COL then BlobAt(page, dataOff, c.tc)
            else Walk(dec, page, pos + |c.code|, headerEnd, dataOff + |c.data|, col + 1)
  {
    ReadOnPage(dec, page, pos, c.code, c.tc);
  }

  lemma FirstOnPage(page: Bytes, pos: nat, dataOff: nat, cs: seq<Column>)
    requires cs != [] && Holds(page, pos, Codes(cs)) && Holds(page, dataOff, Datas(cs))
    ensures Holds(page, pos, cs[0].code) && Holds(page, pos + |cs[0].code|, Codes(cs[1..]))
    ensures Holds(page, dataOff, cs[0].data) && Holds(page, dataOff + |cs[0].data|, Datas(cs[1..]))
  {
    FirstCode(page, pos, cs);
    FirstData(page, dataOff, cs);
  }

  lemma FirstCode(page: Bytes, pos: nat, cs: seq<Column>)
    requires cs != [] && Holds(page, pos, Codes(cs))
    ensures Holds(page, pos, cs[0].code) && Holds(page, pos + |cs[0].code|, Codes(cs[1..]))
  {
    HoldsParts(page, pos, cs[0].code, Codes(cs[1..]));
  }

  lemma FirstData(page: Bytes, dataOff: nat, cs: seq<Column>)
    requires cs != [] && Holds(page, dataOff, Datas(cs))
    ensures Holds(page, dataOff, cs[0].data) && Holds(page, dataOff + |cs[0].data|, Datas(cs[1..]))
  {
    HoldsParts(page, dataOff, cs[0].data, Datas(cs[1..]));
  }

  /** The walk finds the wanted column of the columns still ahead. */
  lemma {:induction false} WalkFinds(dec: Decoder, page: Bytes, pos: nat, headerEnd: int, dataOff: nat, col: nat,
                                     cs: seq<Column>)
    requires Sound(dec) && pos <= |page| && headerEnd <= |page| && col <= CERT_HASH_COL
    requires AllValid(dec, cs)
    requires headerEnd == pos + |Codes(cs)| && Holds(page, pos, Codes(cs)) && Holds(page, dataOff, Datas(cs))
    ensures Walk(dec, page, pos, headerEnd, dataOff, col) == HashIn(cs, CERT_HASH_COL - col)
    decreases |cs|
  {
    if cs != [] {
      var c := cs[0];
      FirstOnPage(page, pos, dataOff, cs);
      WalkStep(dec, page, pos, headerEnd, dataOff, col, c);
      if col == CERT_HASH_COL {
        BlobOfColumn(page, dataOff, c);
      } else {
        WalkFinds(dec, page, pos + |c.code|, headerEnd, dataOff + |c.data|, col + 1, cs[1..]);
      }
    }
  }

  lemma BlobOfColumn(page: Bytes, off: nat, c: Column)
    requires |c.data| == ColDataSize(c.tc) && Holds(page, off, c.data)
    ensures BlobAt(page, off, c.tc) == if c.IsBlob() && c.data != [] then Some(c.data) else None
  {
  }

  lemma PayloadOfCell(dec: Decoder, page: Bytes, start: nat, cell: Cell)
    requires Sound(dec) && cell.Valid(dec) && Holds(page, start, cell.Payload())
    ensures PayloadAt(dec, page, start) == cell.CertHash()
  {
    var cs := cell.columns;
    HoldsParts(page, start, cell.headerSize + Codes(cs), Datas(cs));
    HoldsParts(page, start, cell.headerSize, Codes(cs));
    ReadOnPage(dec, page, start, cell.headerSize, |cell.headerSize| + |Codes(cs)|);
    var headerEnd := start + |cell.headerSize| + |Codes(cs)|;
    WalkFinds(dec, page, start + |cell.headerSize|, headerEnd, headerEnd, 0, cs);
  }

  lemma SkipsTwo(dec: Decoder, page: Bytes, off: nat, size: Bytes, rowid: Bytes, payload: Bytes)
    requires Sound(dec) && Holds(page, off, size + (rowid + payload))
    requires exists v :: Reads(dec, size, v)
    requires exists v :: Reads(dec, rowid, v)
    ensures Holds(page, off + |size| + |rowid|, payload)
    ensures CertHashAt(dec, page, off) == PayloadAt(dec, page, off + |size| + |rowid|)
  {
    HoldsParts(page, off, size, rowid + payload);
    HoldsParts(page, off + |size|, rowid, payload);
    PastOnPage(dec, page, off, size);
    PastOnPage(dec, page, off + |size|, rowid);
  }

  lemma PastOnPage(dec: Decoder, page: Bytes, off: nat, bs: Bytes)
    requires Sound(dec) && Holds(page, off, bs) && exists v :: Reads(dec, bs, v)
    ensures Past(dec, page, off) == Some(off + |bs|)
  {
    var v :| Reads(dec, bs, v);
    ReadOnPage(dec, page, off, bs, v);
  }

  /** Reading a cell gives its row's cert_hash. */
  lemma HashOfCell(dec: Decoder, page: Bytes, off: nat, cell: Cell)
    requires Sound(dec) && cell.Valid(dec) && Holds(page, off, cell.Octets())
    ensures CertHashAt(dec, page, off) == cell.CertHash()
  {
    SkipsTwo(dec, page, off, cell.payloadSize, cell.rowid, cell.Payload());
    PayloadOfCell(dec, page, off + |cell.payloadSize| + |cell.rowid|, cell);
  }
}
