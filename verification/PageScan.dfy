/** Scanning the pages of an archive for cert_hash blobs, page by page. */
module PageScan {
  import opened Octets
  import opened Wrappers
  import opened Varint
  import opened RawScan
  import opened Division
  import Wire

  function Uint16(page: Bytes, off: nat): (v: nat)
    requires off + 2 <= |page|
    ensures v < 0x1_0000
  {
    256 * (page[off] as int) + page[off + 1]
  }

  function AsList(o: Option<Bytes>): (s: seq<Bytes>) {
    if o.Some? then [o.value] else []
  }

  /** What is found at an offset of one page. */
  type Finder = nat -> Option<Bytes>

  ghost function FindIn(page: Bytes): Finder {
    (off: nat) => if off <= |page| && Sound(Decode) then CertHashAt(Decode, page, off) else None
  }

  /** What the cell behind pointer `i` yields; bad pointers yield nothing. */
  function Emitted(find: Finder, page: Bytes, hdrOff: nat, i: nat): (s: seq<Bytes>) {
    var cpOff := hdrOff + 8 + 2 * i;
    if cpOff + 2 > |page| then []
    else
      var cellOff := Uint16(page, cpOff);
      if cellOff <= hdrOff || cellOff >= |page| then [] else AsList(find(cellOff))
  }

  /** What the first `n` cell pointers yield, in order. */
  function Cells(find: Finder, page: Bytes, hdrOff: nat, n: nat): (s: seq<Bytes>) {
    if n == 0 then [] else Cells(find, page, hdrOff, n - 1) + Emitted(find, page, hdrOff, n - 1)
  }

  /** The reads of a page's kind and of its cell count stay on the page. */
  predicate Scannable(page: Bytes, hdrOff: nat) {
    hdrOff < |page| && (page[hdrOff] == LEAF_TABLE ==> hdrOff + 5 <= |page|)
  }

  /** Only a table-leaf page yields anything. */
  ghost function PageHashes(page: Bytes, hdrOff: nat): (s: seq<Bytes>)
    requires Scannable(page, hdrOff)
  {
    if page[hdrOff] != LEAF_TABLE then [] else Cells(FindIn(page), page, hdrOff, Uint16(page, hdrOff + 3))
  }

  lemma {:induction false} PointersEnd(find: Finder, page: Bytes, hdrOff: nat, i: nat, n: nat)
    requires i <= n && hdrOff + 8 + 2 * i + 2 > |page|
    ensures Cells(find, page, hdrOff, n) == Cells(find, page, hdrOff, i)
  {
    if i < n {
      PointersEnd(find, page, hdrOff, i, n - 1);
    }
  }

  method HashAt(page: Bytes, cellOff: nat, ghost find: Finder) returns (r: Option<Bytes>)
    requires cellOff <= |page| && find == FindIn(page)
    ensures r == find(cellOff)
  {
    DecodeIsSound();
    r := CertHashFromCell(page, cellOff);
  }

  method EmitCell(page: Bytes, hdrOff: nat, i: nat, ghost find: Finder) returns (more: seq<Bytes>)
    requires hdrOff + 8 + 2 * i + 2 <= |page| && find == FindIn(page)
    ensures more == Emitted(find, page, hdrOff, i)
  {
    var cellOff := Uint16(page, hdrOff + 8 + 2 * i);
    if cellOff <= hdrOff || cellOff >= |page| {
      return [];
    }
    var ch := HashAt(page, cellOff, find);
    more := AsList(ch);
  }

  lemma CellsStep(find: Finder, page: Bytes, hdrOff: nat, i: nat)
    ensures Cells(find, page, hdrOff, i + 1) == Cells(find, page, hdrOff, i) + Emitted(find, page, hdrOff, i)
  {
  }

  method ScanCells(page: Bytes, hdrOff: nat, numCells: nat, ghost find: Finder) returns (out: seq<Bytes>)
    requires find == FindIn(page)
    ensures out == Cells(find, page, hdrOff, numCells)
  {
    out := [];
    var i := 0;
    while i < numCells
      invariant 0 <= i <= numCells
      invariant out == Cells(find, page, hdrOff, i)
    {
      var cpOff := hdrOff + 8 + 2 * i;
      if cpOff + 2 > |page| {
        PointersEnd(find, page, hdrOff, i, numCells);
        break;
      }
      var more := EmitCell(page, hdrOff, i, find);
      CellsStep(find, page, hdrOff, i);
      out := out + more;
      i := i + 1;
    }
  }

  method ScanPage(page: Bytes, hdrOff: nat) returns (out: seq<Bytes>)
    requires Scannable(page, hdrOff)
    ensures out == PageHashes(page, hdrOff)
  {
    out := [];
    if page[hdrOff] == LEAF_TABLE {
      out := ScanCells(page, hdrOff, Uint16(page, hdrOff + 3), FindIn(page));
    }
  }

  // ------------------------------------------------- what a page holds

  /** A row's values, the cell that stores them and where on its page it is. */
  datatype Placed = Placed(off: nat, cell: Cell, row: seq<Value>)

  /** Pointer `i` holds the offset of a well-formed cell wholly on the page. */
  ghost predicate CellBehind(page: Bytes, hdrOff: nat, i: nat, pl: Placed) {
    && hdrOff < pl.off < Wire.Pow256(2)
    && Holds(page, hdrOff + 8 + 2 * i, Wire.Encode(pl.off, 2))
    && Encodes(pl.cell, pl.row)
    && Holds(page, pl.off, pl.cell.Octets())
  }

  ghost predicate AllBehind(page: Bytes, hdrOff: nat, cells: seq<Placed>) {
    forall i | 0 <= i < |cells| :: CellBehind(page, hdrOff, i, cells[i])
  }

  /** A table-leaf page whose records are all stored on the page: the kind, the
      big-endian cell count, and a pointer to each cell. */
  ghost predicate LeafPage(page: Bytes, hdrOff: nat, cells: seq<Placed>) {
    && hdrOff + 8 <= |page|
    && page[hdrOff] == 0x0D
    && |cells| < Wire.Pow256(2)
    && Holds(page, hdrOff + 3, Wire.Encode(|cells|, 2))
    && AllBehind(page, hdrOff, cells)
  }

  lemma Uint16IsBigEndian(page: Bytes, off: nat, v: nat)
    requires v < Wire.Pow256(2) && Holds(page, off, Wire.Encode(v, 2))
    ensures off + 2 <= |page| && Uint16(page, off) == v
  {
    var bs := page[off..off + 2];
    assert bs == [page[off], page[off + 1]];
    assert bs[..1] == [page[off]] && bs[..1][..0] == [];
    assert Wire.Number(bs[..1]) == page[off];
    assert Wire.Number(bs) == 256 * Wire.Number(bs[..1]) + page[off + 1];
    Wire.NumberEncode(v, 2);
  }

  /** The non-empty cert_hash blobs of a list of rows, in order. */
  function HashesOf(cells: seq<Placed>): (s: seq<Bytes>) {
    if cells == [] then []
    else
      HashesOf(cells[..|cells| - 1])
      + match CertHashOf(cells[|cells| - 1].row) case Some(hash) => [hash] case None => []
  }

  lemma FoundByCell(page: Bytes, pl: Placed)
    requires Encodes(pl.cell, pl.row) && Holds(page, pl.off, pl.cell.Octets())
    ensures pl.off < |page| && FindIn(page)(pl.off) == CertHashOf(pl.row)
  {
    DecodeIsSound();
    EncodedIsValid(pl.cell, pl.row);
    CellNotEmpty(pl.cell);
    HashOfCell(Decode, page, pl.off, pl.cell);
  }

  lemma EmittedBehind(find: Finder, page: Bytes, hdrOff: nat, i: nat, off: nat)
    requires hdrOff < off < |page| && off < Wire.Pow256(2)
    requires Holds(page, hdrOff + 8 + 2 * i, Wire.Encode(off, 2))
    ensures Emitted(find, page, hdrOff, i) == AsList(find(off))
  {
    Uint16IsBigEndian(page, hdrOff + 8 + 2 * i, off);
  }

  lemma EmittedByCell(page: Bytes, hdrOff: nat, i: nat, pl: Placed)
    requires CellBehind(page, hdrOff, i, pl)
    ensures Emitted(FindIn(page), page, hdrOff, i) == AsList(CertHashOf(pl.row))
  {
    FoundByCell(page, pl);
    EmittedBehind(FindIn(page), page, hdrOff, i, pl.off);
  }

  lemma CellNotEmpty(cell: Cell)
    requires cell.Valid(Decode)
    ensures |cell.Octets()| > 0
  {
    var v :| Reads(Decode, cell.payloadSize, v);
  }

  lemma {:induction false} CellsEmit(find: Finder, page: Bytes, hdrOff: nat, cells: seq<Placed>)
    requires forall i | 0 <= i < |cells| :: Emitted(find, page, hdrOff, i) == AsList(CertHashOf(cells[i].row))
    ensures Cells(find, page, hdrOff, |cells|) == HashesOf(cells)
  {
    if cells != [] {
      CellsEmit(find, page, hdrOff, cells[..|cells| - 1]);
    }
  }

  /** The scan of a table-leaf page emits exactly its rows' non-empty
      cert_hash blobs, in cell order. */
  lemma PageScanExact(page: Bytes, hdrOff: nat, cells: seq<Placed>)
    requires LeafPage(page, hdrOff, cells)
    ensures PageHashes(page, hdrOff) == HashesOf(cells)
  {
    var find := FindIn(page);
    forall i | 0 <= i < |cells|
      ensures Emitted(find, page, hdrOff, i) == AsList(CertHashOf(cells[i].row))
    {
      assert CellBehind(page, hdrOff, i, cells[i]);
      EmittedByCell(page, hdrOff, i, cells[i]);
    }
    CellsEmit(find, page, hdrOff, cells);
    Uint16IsBigEndian(page, hdrOff + 3, |cells|);
  }

  // ------------------------------------------------------------ the file

  /** The first page's b-tree header follows the 100-octet file header. */
  function HeaderOffset(k: nat): (off: nat) {
    if k == 0 then 100 else 0
  }

  predicate AllScannable(pages: seq<Bytes>) {
    forall k | 0 <= k < |pages| :: Scannable(pages[k], HeaderOffset(k))
  }

  ghost function PagesHashes(pages: seq<Bytes>): (s: seq<Bytes>)
    requires AllScannable(pages)
  {
    if pages == [] then []
    else
      var n := |pages| - 1;
      PagesHashes(pages[..n]) + PageHashes(pages[n], HeaderOffset(n))
  }

  lemma NextPage(pages: seq<Bytes>, k: nat)
    requires k < |pages| && AllScannable(pages[..k]) && Scannable(pages[k], HeaderOffset(k))
    ensures AllScannable(pages[..k + 1])
    ensures PagesHashes(pages[..k + 1]) == PagesHashes(pages[..k]) + PageHashes(pages[k], HeaderOffset(k))
  {
    assert pages[..k + 1][..k] == pages[..k];
  }

  /** Scans page after page; a read past the end of one stops the program. */
  method ScanPages(pages: seq<Bytes>) returns (r: Option<seq<Bytes>>)
    ensures r.Some? <==> AllScannable(pages)
    ensures r.Some? ==> r.value == PagesHashes(pages)
  {
    var out := [];
    for k := 0 to |pages|
      invariant AllScannable(pages[..k])
      invariant out == PagesHashes(pages[..k])
    {
      if !Scannable(pages[k], HeaderOffset(k)) {
        return None;
      }
      NextPage(pages, k);
      var more := ScanPage(pages[k], HeaderOffset(k));
      out := out + more;
    }
    assert pages[..|pages|] == pages;
    r := Some(out);
  }

  /** What a page holds: its cells if it is a table leaf, and none of interest if it is not. */
  ghost predicate PageHolds(page: Bytes, hdrOff: nat, cells: seq<Placed>) {
    && hdrOff + 8 <= |page|
    && (page[hdrOff] == 0x0D ==> LeafPage(page, hdrOff, cells))
    && (page[hdrOff] != 0x0D ==> cells == [])
  }

  /** What a file holds, page by page; the first page begins with the 100-octet file header. */
  ghost predicate Describes(contents: seq<seq<Placed>>, pages: seq<Bytes>) {
    && |contents| == |pages|
    && forall k | 0 <= k < |pages| :: PageHolds(pages[k], if k == 0 then 100 else 0, contents[k])
  }

  function AllHashes(contents: seq<seq<Placed>>): (s: seq<Bytes>) {
    if contents == [] then []
    else AllHashes(contents[..|contents| - 1]) + HashesOf(contents[|contents| - 1])
  }

  /** The scan of a whole file emits exactly the non-empty cert_hash blobs of
      its rows, page by page and in cell order. */
  lemma {:induction false} FileScanExact(pages: seq<Bytes>, contents: seq<seq<Placed>>)
    requires Describes(contents, pages)
    ensures AllScannable(pages)
    ensures PagesHashes(pages) == AllHashes(contents)
  {
    if pages != [] {
      var n := |pages| - 1;
      FileScanExact(pages[..n], contents[..n]);
      assert PageHolds(pages[n], HeaderOffset(n), contents[n]);
      if pages[n][HeaderOffset(n)] == LEAF_TABLE {
        PageScanExact(pages[n], HeaderOffset(n), contents[n]);
      }
      NextPage(pages, n);
      assert pages[..n + 1] == pages;
    }
  }

  // --------------------------------------------------- from file to pages

  /** "SQLite format 3" and its closing zero octet. */
  const MAGIC: Bytes := [83, 81, 76, 105, 116, 101, 32, 102, 111, 114, 109, 97, 116, 32, 51, 0]

  const FILE_HEADER := 100

  predicate IsDatabase(file: Bytes) {
    |file| >= FILE_HEADER && file[..16] == MAGIC
  }

  /** The page size in the header; 1 stands for 65536. */
  function PageSize(file: Bytes): (n: nat)
    requires |file| >= FILE_HEADER
  {
    if Uint16(file, 16) == 1 then 0x1_0000 else Uint16(file, 16)
  }

  /** The whole pages of a file; a partial last page is dropped. */
  function PagesOf(file: Bytes, size: nat): (pages: seq<Bytes>)
    requires size > 0
    ensures |file| >= size ==> |pages| > 0 && pages[0] == file[..size]
    ensures |file| < size ==> pages == []
    ensures forall k | 0 <= k < |pages| :: |pages[k]| == size
    decreases |file|
  {
    if |file| < size then [] else [file[..size]] + PagesOf(file[size..], size)
  }

  function Join(pages: seq<Bytes>): (bs: Bytes) {
    if pages == [] then [] else pages[0] + Join(pages[1..])
  }

  /** Cutting undoes joining. */
  lemma {:induction false} PagesOfJoin(pages: seq<Bytes>, tail: Bytes, n: nat)
    requires |tail| < n && forall k | 0 <= k < |pages| :: |pages[k]| == n
    ensures PagesOf(Join(pages) + tail, n) == pages
    decreases |pages|
  {
    if pages != [] {
      PagesOfJoin(pages[1..], tail, n);
      CutFirst(pages[0], Join(pages[1..]), tail, n);
    }
  }

  lemma CutFirst(page: Bytes, more: Bytes, tail: Bytes, n: nat)
    requires n > 0 && |page| == n
    ensures PagesOf(page + more + tail, n) == [page] + PagesOf(more + tail, n)
  {
    var file := page + more + tail;
    assert file[..n] == page && file[n..] == more + tail;
  }

  /** How a database begins, octet by octet as the format gives it. */
  predicate StartsAsDatabase(file: Bytes) {
    |file| >= 100 && file[..16] == [83, 81, 76, 105, 116, 101, 32, 102, 111, 114, 109, 97, 116, 32, 51, 0]
  }

  /** A database file, as section 1.3 of the SQLite file format lays it out: whole pages of a legal
      size, beginning with "SQLite format 3", a zero octet and that size in two octets, where 1 stands
      for 65536. A partial page at the end is allowed for. */
  ghost predicate IsFileOf(file: Bytes, pages: seq<Bytes>, n: nat, tail: Bytes) {
    && pages != [] && (n == 65536 || 512 <= n < 65536)
    && (forall k | 0 <= k < |pages| :: |pages[k]| == n)
    && file == Join(pages) + tail && |tail| < n
    && StartsAsDatabase(file)
    && file[16..18] == Wire.Encode(if n == 65536 then 1 else n, 2)
  }

  /** Such a file is taken for one, its pages are found, and nothing is wrong with their size. */
  lemma FileIsRead(file: Bytes, pages: seq<Bytes>, n: nat, tail: Bytes)
    requires IsFileOf(file, pages, n, tail)
    ensures IsDatabase(file) && !BadPageSize(file)
    ensures PageSize(file) == n && PagesOf(file, n) == pages
  {
    JoinHasFirst(pages);
    PagesOfJoin(pages, tail, n);
    assert Wire.Pow256(2) == 65536 by {
      assert Wire.Pow256(1) == 256;
    }
    Uint16IsBigEndian(file, 16, if n == 65536 then 1 else n);
  }

  lemma JoinHasFirst(pages: seq<Bytes>)
    requires pages != []
    ensures |Join(pages)| >= |pages[0]|
  {
  }

  lemma OnePageLess(n: nat, size: nat)
    requires size > 0
    ensures n < size ==> n / size == 0
    ensures n >= size ==> n / size == (n - size) / size + 1
  {
    if n < size {
      DivIs(n, size, 0, n);
    } else {
      var q, r := (n - size) / size, (n - size) % size;
      assert (q + 1) * size == q * size + size;
      DivIs(n, size, q + 1, r);
    }
  }

  /** The pages read so far and those still to be read make up the file's pages. */
  ghost predicate CutSoFar(all: seq<Bytes>, file: Bytes, pos: int, size: nat, pages: seq<Bytes>, pagesLeft: int)
    requires size > 0
  {
    && 0 <= pos <= |file|
    && pagesLeft == (|file| - pos) / size
    && all == pages + PagesOf(file[pos..], size)
  }

  lemma CutNext(all: seq<Bytes>, file: Bytes, pos: int, size: nat, pages: seq<Bytes>, pagesLeft: int)
    requires size > 0 && CutSoFar(all, file, pos, size, pages, pagesLeft) && pagesLeft > 0
    ensures pos + size <= |file|
    ensures CutSoFar(all, file, pos + size, size, pages + [file[pos..pos + size]], pagesLeft - 1)
  {
    OnePageLess(|file| - pos, size);
    assert file[pos..][..size] == file[pos..pos + size] && file[pos..][size..] == file[pos + size..];
  }

  lemma CutAll(all: seq<Bytes>, file: Bytes, pos: int, size: nat, pages: seq<Bytes>)
    requires size > 0 && CutSoFar(all, file, pos, size, pages, 0)
    ensures pages == all
  {
    OnePageLess(|file| - pos, size);
  }

  /** Reads page after page, as many as the file's size holds. */
  method SplitPages(file: Bytes, size: nat) returns (pages: seq<Bytes>)
    requires size > 0
    ensures pages == PagesOf(file, size)
  {
    pages := [];
    var pos, pagesLeft := 0, |file| / size;
    ghost var all := PagesOf(file, size);
    assert file[0..] == file;
    OnePageLess(|file|, size);
    while pagesLeft > 0
      invariant pagesLeft >= 0 && CutSoFar(all, file, pos, size, pages, pagesLeft)
    {
      CutNext(all, file, pos, size, pages, pagesLeft);
      pages := pages + [file[pos..pos + size]];
      pos, pagesLeft := pos + size, pagesLeft - 1;
    }
    CutAll(all, file, pos, size, pages);
  }

  /** What a scan comes to. */
  datatype Scan = NotADatabase | Crash | Scanned(hashes: seq<Bytes>)

  /** A header no database has: a page size of zero, by which the file size is divided, or one so
      small that the first page's kind or cell count lies past its end. */
  predicate BadPageSize(file: Bytes)
    requires IsDatabase(file)
  {
    var size := PageSize(file);
    size <= FILE_HEADER || (size < FILE_HEADER + 5 && |file| >= size && file[FILE_HEADER] == LEAF_TABLE)
  }

  /** Reading stays on the pages exactly when the header is not such a one. */
  lemma ScannableExactly(file: Bytes)
    requires IsDatabase(file) && PageSize(file) > 0
    ensures AllScannable(PagesOf(file, PageSize(file))) <==> !BadPageSize(file)
  {
    var size := PageSize(file);
    var pages := PagesOf(file, size);
    if |file| >= size {
      assert pages[0] == file[..size];
      assert AllScannable(pages) ==> Scannable(pages[0], HeaderOffset(0));
      assert size > FILE_HEADER ==> pages[0][FILE_HEADER] == file[FILE_HEADER];
    }
  }

  /** The whole scan, for any file: refuses what is not a database, stops the program exactly on the
      page sizes no database has, and otherwise emits exactly the non-empty cert_hash blobs of the
      rows the file holds. What a database file comes to is stated of its pages, not of how they
      are found. */
  method ScanArchiveCertHashes(file: Bytes, ghost contents: seq<seq<Placed>>, ghost pages: seq<Bytes>,
                               ghost n: nat, ghost tail: Bytes)
    returns (r: Scan)
    ensures IsFileOf(file, pages, n, tail) && Describes(contents, pages) ==> r == Scanned(AllHashes(contents))
    ensures r.NotADatabase? <==> !StartsAsDatabase(file)
    ensures r.Crash? <==>
              && StartsAsDatabase(file)
              && var size := 256 * (file[16] as int) + file[17];
                 size != 1 && (size <= 100 || (size < 105 && |file| >= size && file[100] == 0x0D))
    ensures r.Scanned? ==> PageSize(file) > 0 && AllScannable(PagesOf(file, PageSize(file)))
    ensures r.Scanned? ==> r.hashes == PagesHashes(PagesOf(file, PageSize(file)))
    ensures r.Scanned? && Describes(contents, PagesOf(file, PageSize(file))) ==> r.hashes == AllHashes(contents)
  {
    if IsFileOf(file, pages, n, tail) {
      FileIsRead(file, pages, n, tail);
    }
    if |file| < FILE_HEADER || file[..16] != MAGIC {
      return NotADatabase;
    }
    if PageSize(file) == 0 {
      return Crash;
    }
    ScannableExactly(file);
    var cut := SplitPages(file, PageSize(file));
    var out := ScanPages(cut);
    if out == None {
      return Crash;
    }
    if Describes(contents, cut) {
      FileScanExact(cut, contents);
    }
    r := Scanned(out.value);
  }
}
