/** Records and leaf cells as sections 1.6 and 2.1 of the SQLite Database File Format lay them out, and what
    the app.db reader (payload/include/appdb_scan.h) makes of them. */
module SqliteDb {
  import opened Bytes
  import opened Wrappers
  import opened AppDbScan

  // ---- Records (section 2.1)

  /** A column value; integers and reals by their bytes. */
  datatype Column =
    | Null
    | Int(b: seq<byte>)
    | Real(b: seq<byte>)
    | Zero
    | One
    | Blob(b: seq<byte>)
    | Text(b: seq<byte>)

  /** An integer has 1, 2, 3, 4, 6 or 8 bytes, a real 8; a blob or text is short enough for its serial type. */
  predicate ValidColumn(c: Column) {
    match c
    case Int(b) => |b| in {1, 2, 3, 4, 6, 8}
    case Real(b) => |b| == 8
    case Blob(b) => |b| < 0x4000_0000_0000_0000
    case Text(b) => |b| < 0x4000_0000_0000_0000
    case _ => true
  }

  function Serial(c: Column): nat {
    match c
    case Null => 0
    case Int(b) => if |b| <= 4 then |b| else if |b| == 6 then 5 else 6
    case Real(_) => 7
    case Zero => 8
    case One => 9
    case Blob(b) => 12 + 2 * |b|
    case Text(b) => 13 + 2 * |b|
  }

  function Content(c: Column): seq<byte> {
    match c
    case Int(b) => b
    case Real(b) => b
    case Blob(b) => b
    case Text(b) => b
    case _ => []
  }

  /** The reader gives every serial type its width, and takes exactly texts for texts. */
  lemma SerialMeans(c: Column)
    requires ValidColumn(c)
    ensures Size(Serial(c)) == |Content(c)| && (IsText(Serial(c)) <==> c.Text?) && Serial(c) < U64
  {
  }

  /** The two serial types that the format reserves are read as columns without a value. */
  lemma ReservedAreEmpty()
    ensures Size(10) == 0 && Size(11) == 0 && !IsText(10) && !IsText(11)
  {
  }

  ghost predicate AllValid(cols: seq<Column>) {
    forall i | 0 <= i < |cols| :: ValidColumn(cols[i])
  }

  function Types(cols: seq<Column>): seq<byte> {
    if cols == [] then [] else EncodeVarint(Serial(cols[0])) + Types(cols[1..])
  }

  function Values(cols: seq<Column>): seq<byte> {
    if cols == [] then [] else Content(cols[0]) + Values(cols[1..])
  }

  /** The texts of a row, in column order. */
  function Texts(cols: seq<Column>): seq<seq<byte>> {
    if cols == [] then [] else (if cols[0].Text? then [cols[0].b] else []) + Texts(cols[1..])
  }

  function First<T>(s: seq<T>, n: nat): seq<T> {
    if |s| <= n then s else s[..n]
  }

  ghost predicate Has(buf: seq<byte>, at: nat, part: seq<byte>) {
    at + |part| <= |buf| && buf[at..at + |part|] == part
  }

  lemma HasParts(buf: seq<byte>, at: nat, a: seq<byte>, b: seq<byte>)
    requires Has(buf, at, a + b)
    ensures Has(buf, at, a) && Has(buf, at + |a|, b)
  {
    SliceOfSlice(buf, at, at + |a + b|, 0, |a|);
    SliceOfSlice(buf, at, at + |a + b|, |a|, |a + b|);
  }

  /** A varint is read wherever it stands. */
  lemma ReadsVarint(buf: seq<byte>, at: nat, x: nat)
    requires Has(buf, at, EncodeVarint(x)) && x < U64
    ensures Varint(buf, at) == Some((x, |EncodeVarint(x)|)) && 1 <= |EncodeVarint(x)| <= 9
  {
    hide EncodeVarint, Varint;
    var n := |EncodeVarint(x)|;
    VarintRoundTrip(buf[..at], x, buf[at + n..]);
    CutInThree(buf, at, n);
  }

  lemma CutInThree<T>(s: seq<T>, at: nat, n: nat)
    requires at + n <= |s|
    ensures s[..at] + s[at..at + n] + s[at + n..] == s
  {
  }

  /** The column loop over written serial types and values: the texts, as many as there is room for. */
  lemma {:induction false} ReadsColumns(buf: seq<byte>, toff: nat, voff: nat, cols: seq<Column>, room: nat)
    requires AllValid(cols) && Has(buf, toff, Types(cols)) && Has(buf, voff, Values(cols))
    ensures TextColumns(buf, toff, toff + |Types(cols)|, voff, room) == Some(First(Texts(cols), room))
    decreases |cols|
  {
    hide Varint, Size, IsText, Serial, Content, EncodeVarint, First;
    if cols == [] || room == 0 {
      FirstOfNone(cols, room);
      assert First(Texts(cols), room) == [];
    } else {
      var c, rest := cols[0], cols[1..];
      var t, n := EncodeVarint(Serial(c)), |EncodeVarint(Serial(c))|;
      var width, room' := |Content(c)|, if c.Text? then room - 1 else room;
      SerialMeans(c);
      TextContent(c);
      HasParts(buf, toff, t, Types(rest));
      HasParts(buf, voff, Content(c), Values(rest));
      ReadsVarint(buf, toff, Serial(c));
      ReadsColumns(buf, toff + n, voff + width, rest, room');
      ColumnsStep(buf, toff, toff + |Types(cols)|, voff, room, Serial(c), n);
      FirstCons(cols, room);
    }
  }

  lemma ColumnsStep(buf: seq<byte>, toff: nat, hend: nat, voff: nat, room: nat, stype: nat, adv: nat)
    requires toff < hend && room > 0 && Varint(buf, toff) == Some((stype, adv)) && voff + Size(stype) <= |buf|
    ensures var w, room' := Size(stype), if IsText(stype) then room - 1 else room;
            TextColumns(buf, toff, hend, voff, room)
            == Joined(if IsText(stype) then [buf[voff..voff + w]] else [],
                      TextColumns(buf, toff + adv, hend, voff + w, room'))
  {
    hide Varint, Size, IsText;
  }

  lemma FirstOfNone(cols: seq<Column>, room: nat)
    requires cols == [] || room == 0
    ensures First(Texts(cols), room) == []
  {
  }

  lemma TextContent(c: Column)
    ensures c.Text? ==> Content(c) == c.b
  {
  }

  lemma FirstCons(cols: seq<Column>, room: nat)
    requires cols != [] && room > 0
    ensures var c, more := cols[0], Texts(cols[1..]);
            First(Texts(cols), room)
            == (if c.Text? then [c.b] + First(more, room - 1) else [] + First(more, room))
  {
  }

  // ---- The record header's own size

  lemma EncodedLengthIs(x: nat)
    ensures |EncodeVarint(x)| == if x < Pow128(8) then GroupCount(x) else 9
  {
  }

  lemma {:induction false} PowGrows(n: nat, m: nat)
    requires n <= m
    ensures Pow128(n) <= Pow128(m)
    decreases m
  {
    if n < m {
      PowGrows(n, m - 1);
    }
  }

  /** A longer number has no shorter encoding, and one that is larger by at most ten has one byte more at
      most. */
  lemma LengthSteps(x: nat, k: nat)
    requires k <= 10
    ensures |EncodeVarint(x)| <= |EncodeVarint(x + k)| <= |EncodeVarint(x)| + 1
  {
    hide EncodeVarint, GroupCount;
    EncodedLengthIs(x);
    EncodedLengthIs(x + k);
    GroupCountFits(x);
    GroupCountFits(x + k);
    var n := GroupCount(x);
    assert Pow128(n + 1) == 128 * Pow128(n);
    assert x + k < Pow128(n + 1);
    if x < Pow128(8) <= x + k {
      if n + 1 <= 8 {
        PowGrows(n + 1, 8);
      }
      assert n <= 8;
    }
  }

  /** The header's size in bytes, its own varint included, for serial types of `n` bytes. */
  function HeaderSize(n: nat): (h: nat)
    ensures h == |EncodeVarint(h)| + n
  {
    var v := |EncodeVarint(n)|;
    EncodedLength(n);
    LengthSteps(n, v);
    LengthSteps(n, v + 1);
    LengthSteps(n + v, 1);
    if |EncodeVarint(n + v)| == v then n + v else n + v + 1
  }

  function Record(cols: seq<Column>): seq<byte> {
    EncodeVarint(HeaderSize(|Types(cols)|)) + (Types(cols) + Values(cols))
  }

  // ---- Leaf cells (section 1.6)

  /** A row of a table; the row id as its 64 bits. */
  datatype Row = Row(rowid: nat, cols: seq<Column>)

  ghost predicate ValidRow(r: Row) {
    r.rowid < U64 && AllValid(r.cols)
  }

  /** A leaf cell that has its whole payload. */
  function Cell(r: Row): seq<byte> {
    EncodeVarint(|Record(r.cols)|) + (EncodeVarint(r.rowid) + Record(r.cols))
  }

  /** A cell, wherever it stands in a buffer, is read to the texts of its row, the first 32 of them. */
  lemma ReadsCell(buf: seq<byte>, at: nat, r: Row)
    requires ValidRow(r) && Has(buf, at, Cell(r)) && |buf| < U64
    ensures CellColumns(buf, at) == Some(First(Texts(r.cols), 32))
  {
    hide Varint, TextColumns, Types, Values, EncodeVarint, CellColumns, First, Texts;
    var types, values := Types(r.cols), Values(r.cols);
    var hsize := HeaderSize(|types|);
    var p, i, h := EncodeVarint(|Record(r.cols)|), EncodeVarint(r.rowid), EncodeVarint(hsize);
    HasParts(buf, at, p, i + Record(r.cols));
    HasParts(buf, at + |p|, i, Record(r.cols));
    var rec := at + |p| + |i|;
    HasParts(buf, rec, h, types + values);
    HasParts(buf, rec + |h|, types, values);
    ReadsVarint(buf, at, |Record(r.cols)|);
    ReadsVarint(buf, at + |p|, r.rowid);
    ReadsVarint(buf, rec, hsize);
    ReadsColumns(buf, rec + |h|, rec + hsize, r.cols, MAX_TEXTS);
    CellSteps(buf, at, |Record(r.cols)|, |p|, |i|, hsize, |h|);
  }

  /** A payload said to run past the buffer is refused if and only if its end does not wrap into it. */
  lemma SpillRefusedIff(buf: seq<byte>, at: nat, payload: nat, n1: nat, n2: nat)
    requires Varint(buf, at) == Some((payload, n1)) && payload < U64 && |buf| < U64
    requires Varint(buf, at + n1).Some? && Varint(buf, at + n1).value.1 == n2
    requires at + n1 + n2 + payload > |buf|
    ensures at + n1 + n2 + payload < U64 ==> CellColumns(buf, at).None?
    ensures at + n1 + n2 + payload >= U64 + |buf| + 1 ==> CellColumns(buf, at).None?
    ensures U64 <= at + n1 + n2 + payload <= U64 + |buf| ==>
              CellColumns(buf, at) == RecordColumns(buf, at + n1 + n2)
  {
    hide Varint, RecordColumns;
    VarintInside(buf, at + n1);
  }

  lemma VarintInside(buf: seq<byte>, off: nat)
    ensures Varint(buf, off).Some? ==> off + Varint(buf, off).value.1 <= |buf|
  {
  }

  lemma TwoLengths()
    ensures |EncodeVarint(U64 - 10)| == 9 && |EncodeVarint(0)| == 1
  {
    PowOfEight();
    EncodedLengthIs(U64 - 10);
  }

  /** Such a cell: its payload ends 2^64 bytes on, where the buffer starts, and its row is read. */
  lemma WrappedPayloadIsRead(cols: seq<Column>)
    requires AllValid(cols) && 10 + |Record(cols)| < U64
    ensures var buf := EncodeVarint(U64 - 10) + (EncodeVarint(0) + Record(cols));
            CellColumns(buf, 0) == Some(First(Texts(cols), 32))
  {
    hide Varint, TextColumns, Types, Values, CellColumns, First, Texts, EncodeVarint;
    var types, values := Types(cols), Values(cols);
    var hsize := HeaderSize(|types|);
    var p, i, h := EncodeVarint(U64 - 10), EncodeVarint(0), EncodeVarint(hsize);
    var buf := p + (i + Record(cols));
    TwoLengths();
    assert Has(buf, 0, p + (i + Record(cols)));
    HasParts(buf, 0, p, i + Record(cols));
    HasParts(buf, 9, i, Record(cols));
    HasParts(buf, 10, h, types + values);
    HasParts(buf, 10 + |h|, types, values);
    ReadsVarint(buf, 0, U64 - 10);
    ReadsVarint(buf, 9, 0);
    ReadsVarint(buf, 10, hsize);
    ReadsColumns(buf, 10 + |h|, 10 + hsize, cols, MAX_TEXTS);
    CellSteps(buf, 0, U64 - 10, 9, 1, hsize, |h|);
  }

  lemma CellSteps(buf: seq<byte>, at: nat, payload: nat, n1: nat, n2: nat, hsize: nat, n3: nat)
    requires Varint(buf, at) == Some((payload, n1)) && payload > 0
    requires Varint(buf, at + n1).Some? && Varint(buf, at + n1).value.1 == n2
    requires Varint(buf, at + n1 + n2) == Some((hsize, n3)) && hsize >= n3
    requires (at + n1 + n2 + payload) % U64 <= |buf| < U64 && at + n1 + n2 + hsize <= |buf|
    ensures var rec := at + n1 + n2;
            CellColumns(buf, at) == TextColumns(buf, rec + n3, rec + hsize, rec + hsize, MAX_TEXTS)
  {
    hide Varint, TextColumns;
  }

  /** What the reader makes of a row. */
  function EntryOf(r: Row, idsOnly: bool): Option<Entry> {
    RowToEntry(First(Texts(r.cols), 32), idsOnly)
  }

  /** Round trip of a cell: for every row, whatever is around it. */
  lemma CellRoundTrip(pre: seq<byte>, r: Row, post: seq<byte>, idsOnly: bool)
    requires ValidRow(r) && |pre + Cell(r) + post| < U64
    ensures CellColumns(pre + Cell(r) + post, |pre|) == Some(First(Texts(r.cols), 32))
    ensures ReadCell(pre + Cell(r) + post, |pre|, idsOnly) == EntryOf(r, idsOnly)
  {
    var buf := pre + Cell(r) + post;
    assert buf[|pre|..|pre| + |Cell(r)|] == Cell(r);
    ReadsCell(buf, |pre|, r);
  }
}
