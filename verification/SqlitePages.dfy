/** Leaf pages and whole database files (section 1.6 of the SQLite Database File Format), with cells that have
    their whole payload and cells that do not, and what a scan (payload/include/appdb_scan.h) makes of them. */
module SqlitePages {
  import opened Bytes
  import opened Wrappers
  import opened AppDbScan
  import opened SqliteDb
  import opened SqliteSpill

  /** A cell: its row, where it is in its page, and how many bytes of the payload it has. */
  datatype Placed = Placed(row: Row, at: nat, local: nat)

  /** A leaf table page with its cells in pointer order, or any other kind of page. */
  datatype Page = Leaf(cells: seq<Placed>) | OtherKind

  /** A cell keeps its whole payload, or at least the nine bytes that the longest varint takes. */
  ghost predicate ValidCell(c: Placed) {
    ValidRow(c.row) && c.local <= |Record(c.row.cols)| && (c.local < |Record(c.row.cols)| ==> c.local >= 9)
  }

  function BigEndian(high: int, low: int): int {
    high * 256 + low
  }

  /** The pointer at `ptr` leads to the cell. */
  ghost predicate HoldsCell(buf: seq<byte>, base: nat, size: nat, ptr: nat, c: Placed) {
    && ValidCell(c) && ptr + 2 <= |buf| && BigEndian(buf[ptr], buf[ptr + 1]) == c.at && 0 < c.at < size
    && Has(buf, base + c.at, CellPart(c.row, c.local))
    && PayloadAt(base + c.at, c.row) + |Record(c.row.cols)| < U64
  }

  /** The pointer array from `ptr` on leads to the cells. */
  ghost predicate HoldsCells(buf: seq<byte>, base: nat, size: nat, ptr: nat, cells: seq<Placed>)
    decreases |cells|
  {
    cells == [] || (HoldsCell(buf, base, size, ptr, cells[0]) && HoldsCells(buf, base, size, ptr + 2, cells[1..]))
  }

  ghost predicate HoldsPage(buf: seq<byte>, base: nat, size: nat, p: Page) {
    var h := if base == 0 then 100 else base;   // the first page has the file header in front
    && h + 8 <= |buf|
    && match p
       case OtherKind => buf[h] != 0x0D
       case Leaf(cells) =>
         && buf[h] == 0x0D && BigEndian(buf[h + 3], buf[h + 4]) == |cells|
         && HoldsCells(buf, base, size, h + 8, cells)
  }

  // ---- The file header

  const HEADER_TEXT: string := "SQLite format 3"

  /** The 100-byte file header of a database with pages of `size` bytes (section 1.3), as far as it is read. */
  ghost predicate DatabaseHeader(buf: seq<byte>, size: nat) {
    && |buf| >= 100
    && (forall i | 0 <= i < 15 :: buf[i] == HEADER_TEXT[i] as int) && buf[15] == 0
    && size in {512, 1024, 2048, 4096, 8192, 16384, 32768, 65536}
    && BigEndian(buf[16], buf[17]) == if size == 65536 then 1 else size
  }

  /** A buffer is scanned, and with pages of this size, if and only if it has such a header. */
  lemma PageSizeIff(buf: seq<byte>, size: nat)
    ensures PageSize(buf) == Some(size) <==> DatabaseHeader(buf, size)
  {
    if |buf| >= 100 {
      HeaderTextIff(buf);
      var raw := Be16(buf, 16);
      PowersIff(if raw == 1 then 65536 else raw);
    }
  }

  lemma HeaderTextIff(buf: seq<byte>)
    requires |buf| >= 100
    ensures buf[..16] == MAGIC <==> (forall i | 0 <= i < 15 :: buf[i] == HEADER_TEXT[i] as int) && buf[15] == 0
  {
    assert |MAGIC| == 16 && MAGIC[15] == 0 && forall i | 0 <= i < 15 :: MAGIC[i] == HEADER_TEXT[i] as int;
    if (forall i | 0 <= i < 15 :: buf[i] == HEADER_TEXT[i] as int) && buf[15] == 0 {
      assert forall i | 0 <= i < 16 :: buf[..16][i] == MAGIC[i];
    }
    if buf[..16] == MAGIC {
      assert forall i | 0 <= i < 16 :: buf[i] == buf[..16][i] == MAGIC[i];
    }
  }

  lemma {:induction false} PowersIff(n: nat)
    requires n <= 65536
    ensures PowerOfTwo(n) <==>
              n in {1, 2, 4, 8, 16, 32, 64, 128, 256} || n in {512, 1024, 2048, 4096, 8192, 16384, 32768, 65536}
  {
    if n > 1 && n % 2 == 0 {
      PowersIff(n / 2);
    }
  }

  /** A pointer of 0, past its page or past the buffer leads to no cell, and the scan goes on with the next; a
      pointer array cut short by the end of the buffer ends there. */
  lemma DeadPointer(buf: seq<byte>, base: nat, size: nat, ptr: nat, left: nat, decode: Decoder)
    requires left > 0
    ensures ptr + 2 > |buf| ==> CellEntries(buf, base, size, ptr, left, decode) == []
    ensures ptr + 2 <= |buf| ==>
              var rel := BigEndian(buf[ptr], buf[ptr + 1]);
              rel == 0 || rel >= size || base + rel >= |buf| ==>
                CellEntries(buf, base, size, ptr, left, decode)
                == CellEntries(buf, base, size, ptr + 2, left - 1, decode)
  {
  }

  /** The buffer's whole pages from `base` on. */
  ghost predicate HoldsPages(buf: seq<byte>, base: nat, size: nat, pages: seq<Page>)
    decreases |pages|
  {
    if pages == [] then base + size > |buf|
    else base + size <= |buf| && HoldsPage(buf, base, size, pages[0])
         && HoldsPages(buf, base + size, size, pages[1..])
  }

  /** What a cell contributes: a whole one its row's entry; a spilled one nothing when its payload would end past
      the buffer, and otherwise the entry of its row with whatever stands in the buffer for what it lacks. Of one
      that lacks part of its header nothing more is said than that it is read. */
  function CellGives(buf: seq<byte>, at: nat, c: Placed, idsOnly: bool): Option<Entry> {
    if c.local == |Record(c.row.cols)| then EntryOf(c.row, idsOnly)
    else if !EndsInside(buf, at, c.row) then None
    else if HeaderEnd(c.row.cols) <= c.local then
      EntryOf(Row(c.row.rowid, Refill(c.row.cols, Found(buf, at, c.row))), idsOnly)
    else ReadCell(buf, at, idsOnly)
  }

  lemma ReadsPlaced(buf: seq<byte>, at: nat, c: Placed, idsOnly: bool)
    requires ValidCell(c) && Has(buf, at, CellPart(c.row, c.local)) && |buf| < U64
    requires PayloadAt(at, c.row) + |Record(c.row.cols)| < U64
    ensures ReadCell(buf, at, idsOnly) == CellGives(buf, at, c, idsOnly)
  {
    hide CellColumns, CellPart, Texts, First, RowToEntry, ValidRow, Refill, Record, EncodeVarint, HeaderEnd;
    if c.local == |Record(c.row.cols)| {
      WholeCell(c.row);
      ReadsCell(buf, at, c.row);
    } else if !EndsInside(buf, at, c.row) {
      PastTheEndIsRefused(buf, at, c.row, c.local);
    } else if HeaderEnd(c.row.cols) <= c.local {
      ReadsOn(buf, at, c.row, c.local);
    }
  }

  lemma WholeCell(r: Row)
    ensures CellPart(r, |Record(r.cols)|) == Cell(r)
  {
    assert Record(r.cols)[..|Record(r.cols)|] == Record(r.cols);
  }

  /** A spilled cell gives its row's own entry when the columns it is made of are in the cell. */
  lemma LocalGivesOwn(buf: seq<byte>, at: nat, c: Placed, e: Entry, idsOnly: bool)
    requires ValidCell(c) && EndsInside(buf, at, c.row) && Has(buf, at, CellPart(c.row, c.local)) && |buf| < U64
    requires e.name != [] && UsedIsLocal(c.row, c.local, e, idsOnly)
    ensures CellGives(buf, at, c, idsOnly) == EntryOf(c.row, idsOnly) == Some(e)
  {
    hide CellColumns, Texts, First, RowToEntry, ValidRow, Refill, Record, EncodeVarint, HeaderEnd, CellPart;
    LocalIsOwn(c.row, c.local, e, idsOnly);
    PartLength(c.row, c.local);
    var n := |CellPart(c.row, c.local)|;
    var pre, post := buf[..at], buf[at + n..];
    CutInThree(buf, at, n);
    assert Follows(pre, c.row, c.local, post);
    LocalGivesEntry(pre, c.row, c.local, post, e, idsOnly);
    ReadsPlaced(buf, at, c, idsOnly);
  }

  /** The entries of the cells that give one, in order. */
  function EntriesOf(buf: seq<byte>, base: nat, cells: seq<Placed>, idsOnly: bool): seq<Entry> {
    if cells == [] then []
    else (match CellGives(buf, base + cells[0].at, cells[0], idsOnly) case None => [] case Some(e) => [e])
         + EntriesOf(buf, base, cells[1..], idsOnly)
  }

  /** All of them, in page and pointer order. */
  function EntriesOfPages(buf: seq<byte>, base: nat, size: nat, pages: seq<Page>, idsOnly: bool): seq<Entry>
    decreases |pages|
  {
    if pages == [] then []
    else (if pages[0].Leaf? then EntriesOf(buf, base, pages[0].cells, idsOnly) else [])
         + EntriesOfPages(buf, base + size, size, pages[1..], idsOnly)
  }

  /** The cell loop over a pointer array gives what the cells it leads to give. */
  lemma {:induction false} ScansCells(buf: seq<byte>, base: nat, size: nat, ptr: nat, cells: seq<Placed>, idsOnly: bool)
    requires HoldsCells(buf, base, size, ptr, cells) && |buf| < U64
    ensures CellEntries(buf, base, size, ptr, |cells|, CellDecoder(buf, idsOnly))
            == EntriesOf(buf, base, cells, idsOnly)
    decreases |cells|
  {
    hide HoldsCell, CellEntry, CellGives, CellDecoder;
    if cells != [] {
      DecodesPlaced(buf, base, size, ptr, cells[0], idsOnly);
      ScansCells(buf, base, size, ptr + 2, cells[1..], idsOnly);
    }
  }

  lemma DecodesPlaced(buf: seq<byte>, base: nat, size: nat, ptr: nat, c: Placed, idsOnly: bool)
    requires HoldsCell(buf, base, size, ptr, c) && |buf| < U64
    ensures ptr + 2 <= |buf|
    ensures CellEntry(buf, base, size, ptr, CellDecoder(buf, idsOnly)) == CellGives(buf, base + c.at, c, idsOnly)
  {
    hide ReadCell, CellGives, ValidRow, Record, EncodeVarint;
    PartNotEmpty(c.row, c.local);
    ReadsPlaced(buf, base + c.at, c, idsOnly);
  }

  lemma PartNotEmpty(r: Row, local: nat)
    requires local <= |Record(r.cols)|
    ensures |CellPart(r, local)| > 0
  {
    EncodedLength(|Record(r.cols)|);
  }

  lemma ScansPage(buf: seq<byte>, base: nat, size: nat, p: Page, idsOnly: bool)
    requires HoldsPage(buf, base, size, p) && |buf| < U64
    ensures PageEntries(buf, base, size, CellDecoder(buf, idsOnly))
            == if p.Leaf? then EntriesOf(buf, base, p.cells, idsOnly) else []
  {
    hide HoldsCells, CellEntries, CellDecoder, EntriesOf;
    if p.Leaf? {
      ScansCells(buf, base, size, HeaderOffset(base) + 8, p.cells, idsOnly);
    }
  }

  lemma PageFits(buf: seq<byte>, base: nat, size: nat, p: Page)
    requires HoldsPage(buf, base, size, p)
    ensures HeaderOffset(base) + 8 <= |buf|
  {
  }

  /** Scanning a whole database image gives what all its leaf cells give, in page and pointer order. */
  lemma {:induction false} ScansDatabase(buf: seq<byte>, base: nat, size: nat, pages: seq<Page>, idsOnly: bool)
    requires HoldsPages(buf, base, size, pages) && size >= 512 && |buf| < U64
    ensures AllEntries(buf, base, size, CellDecoder(buf, idsOnly)) == EntriesOfPages(buf, base, size, pages, idsOnly)
    decreases |pages|
  {
    hide HoldsPage, PageEntries, CellDecoder, EntriesOf;
    if pages != [] {
      PageFits(buf, base, size, pages[0]);
      ScansPage(buf, base, size, pages[0], idsOnly);
      ScansDatabase(buf, base + size, size, pages[1..], idsOnly);
    }
  }

  /** `appdb_scan_entries_ex` on a database image: the first `max` of the keep-first-per-title deduplication of
      what its leaf cells give. */
  method ScanDatabase(buf: seq<byte>, max: nat, idsOnly: bool, ghost pages: seq<Page>)
    returns (r: Option<seq<Entry>>)
    requires PageSize(buf).Some? && HoldsPages(buf, 0, PageSize(buf).value, pages) && |buf| < U64
    ensures r == if max == 0 then None
                 else Some(Take(FirstPerTitle(EntriesOfPages(buf, 0, PageSize(buf).value, pages, idsOnly)), max))
  {
    ScansDatabase(buf, 0, PageSize(buf).value, pages, idsOnly);
    r := ScanEntries(buf, max, idsOnly);
  }

  // ---- Images whose spilled cells do no harm

  /** The cell gives its row's own entry, or is a spilled one that is left out. */
  ghost predicate Harmless(buf: seq<byte>, at: nat, c: Placed, idsOnly: bool) {
    || c.local == |Record(c.row.cols)|
    || !EndsInside(buf, at, c.row)
    || exists e: Entry :: e.name != [] && UsedIsLocal(c.row, c.local, e, idsOnly)
  }

  /** Whether a row is seen at all. */
  predicate Seen(buf: seq<byte>, at: nat, c: Placed) {
    c.local == |Record(c.row.cols)| || EndsInside(buf, at, c.row)
  }

  lemma HarmlessGivesOwn(buf: seq<byte>, base: nat, size: nat, ptr: nat, c: Placed, idsOnly: bool)
    requires HoldsCell(buf, base, size, ptr, c) && |buf| < U64 && Harmless(buf, base + c.at, c, idsOnly)
    ensures CellGives(buf, base + c.at, c, idsOnly)
            == if Seen(buf, base + c.at, c) then EntryOf(c.row, idsOnly) else None
  {
    hide EntryOf, Refill, Record, EncodeVarint, HeaderEnd, CellPart, ReadCell;
    var at := base + c.at;
    if c.local < |Record(c.row.cols)| && EndsInside(buf, at, c.row) {
      var e: Entry :| e.name != [] && UsedIsLocal(c.row, c.local, e, idsOnly);
      LocalGivesOwn(buf, at, c, e, idsOnly);
    }
  }

  /** The rows of a page that are seen. */
  function SeenRows(buf: seq<byte>, base: nat, cells: seq<Placed>): seq<Row> {
    if cells == [] then []
    else (if Seen(buf, base + cells[0].at, cells[0]) then [cells[0].row] else []) + SeenRows(buf, base, cells[1..])
  }

  function RowEntries(rows: seq<Row>, idsOnly: bool): seq<Entry> {
    if rows == [] then []
    else (match EntryOf(rows[0], idsOnly) case None => [] case Some(e) => [e]) + RowEntries(rows[1..], idsOnly)
  }

  ghost predicate AllHarmless(buf: seq<byte>, base: nat, cells: seq<Placed>, idsOnly: bool) {
    forall i | 0 <= i < |cells| :: Harmless(buf, base + cells[i].at, cells[i], idsOnly)
  }

  /** A page whose spilled cells are all past the buffer, or have in them what their entry is made of, gives the
      entries of its rows that are seen, in order, and nothing else. */
  lemma {:induction false} HarmlessPage(buf: seq<byte>, base: nat, size: nat, ptr: nat, cells: seq<Placed>,
                                        idsOnly: bool)
    requires HoldsCells(buf, base, size, ptr, cells) && |buf| < U64 && AllHarmless(buf, base, cells, idsOnly)
    ensures EntriesOf(buf, base, cells, idsOnly) == RowEntries(SeenRows(buf, base, cells), idsOnly)
    decreases |cells|
  {
    hide HoldsCell, CellGives, EntryOf, Seen, Harmless;
    if cells != [] {
      var c, rest := cells[0], SeenRows(buf, base, cells[1..]);
      HarmlessGivesOwn(buf, base, size, ptr, c, idsOnly);
      HarmlessPage(buf, base, size, ptr + 2, cells[1..], idsOnly);
      assert ([c.row] + rest)[1..] == rest && [] + rest == rest;
    }
  }

  lemma {:induction false} RowEntriesConcat(a: seq<Row>, b: seq<Row>, idsOnly: bool)
    ensures RowEntries(a + b, idsOnly) == RowEntries(a, idsOnly) + RowEntries(b, idsOnly)
    decreases |a|
  {
    hide EntryOf;
    if a == [] {
      assert a + b == b;
    } else {
      assert (a + b)[1..] == a[1..] + b;
      RowEntriesConcat(a[1..], b, idsOnly);
    }
  }

  /** The rows that are seen, in page and pointer order. */
  function SeenIn(buf: seq<byte>, base: nat, size: nat, pages: seq<Page>): seq<Row>
    decreases |pages|
  {
    if pages == [] then []
    else (if pages[0].Leaf? then SeenRows(buf, base, pages[0].cells) else [])
         + SeenIn(buf, base + size, size, pages[1..])
  }

  ghost predicate HarmlessPages(buf: seq<byte>, base: nat, size: nat, pages: seq<Page>, idsOnly: bool)
    decreases |pages|
  {
    pages == [] || ((pages[0].Leaf? ==> AllHarmless(buf, base, pages[0].cells, idsOnly))
                    && HarmlessPages(buf, base + size, size, pages[1..], idsOnly))
  }

  /** So does a whole image of such pages: the scan is the one of the rows themselves. */
  lemma {:induction false} HarmlessDatabase(buf: seq<byte>, base: nat, size: nat, pages: seq<Page>, idsOnly: bool)
    requires HoldsPages(buf, base, size, pages) && |buf| < U64 && HarmlessPages(buf, base, size, pages, idsOnly)
    ensures EntriesOfPages(buf, base, size, pages, idsOnly) == RowEntries(SeenIn(buf, base, size, pages), idsOnly)
    decreases |pages|
  {
    hide AllHarmless, HoldsCells, EntriesOf, SeenRows, RowEntries;
    if pages == [] {
      NoRowsNoEntries(idsOnly);
    } else {
      var p := pages[0];
      HarmlessDatabase(buf, base + size, size, pages[1..], idsOnly);
      if p.Leaf? {
        HarmlessPage(buf, base, size, HeaderOffset(base) + 8, p.cells, idsOnly);
        RowEntriesConcat(SeenRows(buf, base, p.cells), SeenIn(buf, base + size, size, pages[1..]), idsOnly);
      } else {
        assert [] + SeenIn(buf, base + size, size, pages[1..]) == SeenIn(buf, base + size, size, pages[1..]);
      }
    }
  }

  lemma NoRowsNoEntries(idsOnly: bool)
    ensures RowEntries([], idsOnly) == []
  {
  }
}
