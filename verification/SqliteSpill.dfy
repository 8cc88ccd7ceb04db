/** Leaf cells that keep only the front of their payload, the rest being on overflow pages (section 1.6 of the
    SQLite Database File Format), and what the app.db reader (payload/include/appdb_scan.h), which does not
    follow those, makes of them. */
module SqliteSpill {
  import opened Bytes
  import opened Wrappers
  import opened AppDbScan
  import opened SqliteDb

  /** How much of a payload of `p` bytes a leaf cell keeps, on pages with `u` usable bytes. */
  function LocalSize(p: nat, u: nat): (n: nat)
    requires u >= 480
    ensures n <= p && (n == p <==> p <= u - 35) && (n < p ==> n >= 35)
    // the rest fills whole overflow pages, unless too much would stay for that
    ensures n < p ==> n <= u - 35 && ((p - n) % (u - 4) == 0 || n == (u - 12) * 32 / 255 - 23)
  {
    if p <= u - 35 then p
    else
      var m := (u - 12) * 32 / 255 - 23;
      WholePages(p - m, u - 4);
      var k := m + (p - m) % (u - 4);
      if k <= u - 35 then k else m
  }

  lemma WholePages(x: nat, page: nat)
    requires page > 0
    ensures (x - x % page) % page == 0
  {
    var y := x - x % page;
    NoMultipleBetween(page, x / page - y / page, y % page);
  }

  lemma NoMultipleBetween(page: int, d: int, r: int)
    requires 0 <= r < page && page * d == r
    ensures r == 0
  {
    assert d >= 1 ==> page * d >= page;
    assert d <= -1 ==> page * d <= -page;
  }

  /** A leaf cell, as far as it goes before an overflow page number: both varints and `local` payload bytes. */
  function CellPart(r: Row, local: nat): seq<byte>
    requires local <= |Record(r.cols)|
  {
    EncodeVarint(|Record(r.cols)|) + (EncodeVarint(r.rowid) + Record(r.cols)[..local])
  }

  /** Where the payload starts, in a cell at `at`. */
  function PayloadAt(at: nat, r: Row): nat {
    at + |EncodeVarint(|Record(r.cols)|)| + |EncodeVarint(r.rowid)|
  }

  function HeaderEnd(cols: seq<Column>): (h: nat)
    ensures h + |Values(cols)| == |Record(cols)|
  {
    HeaderSize(|Types(cols)|)
  }

  // ---- Columns whose contents are other bytes

  function WithContent(c: Column, b: seq<byte>): Column {
    match c
    case Int(_) => Int(b)
    case Real(_) => Real(b)
    case Blob(_) => Blob(b)
    case Text(_) => Text(b)
    case _ => c
  }

  /** The same columns with their contents taken from `bytes` in turn. */
  function Refill(cols: seq<Column>, bytes: seq<byte>): (r: seq<Column>)
    requires |bytes| == |Values(cols)|
    ensures |r| == |cols|
  {
    if cols == [] then []
    else
      var n := |Content(cols[0])|;
      [WithContent(cols[0], bytes[..n])] + Refill(cols[1..], bytes[n..])
  }

  lemma ConsMeans(c: Column, rest: seq<Column>)
    ensures Types([c] + rest) == EncodeVarint(Serial(c)) + Types(rest)
    ensures Values([c] + rest) == Content(c) + Values(rest)
    ensures Texts([c] + rest) == (if c.Text? then [c.b] else []) + Texts(rest)
  {
    assert ([c] + rest)[1..] == rest;
  }

  lemma RefilledColumn(c: Column, b: seq<byte>)
    requires |b| == |Content(c)|
    ensures Content(WithContent(c, b)) == b && Serial(WithContent(c, b)) == Serial(c)
    ensures ValidColumn(c) ==> ValidColumn(WithContent(c, b))
    ensures WithContent(c, b).Text? <==> c.Text?
    ensures c.Text? ==> WithContent(c, b) == Text(b)
  {
  }

  lemma {:induction false} RefillMeans(cols: seq<Column>, bytes: seq<byte>)
    requires AllValid(cols) && |bytes| == |Values(cols)|
    ensures var cols' := Refill(cols, bytes);
            AllValid(cols') && Types(cols') == Types(cols) && Values(cols') == bytes
    decreases |cols|
  {
    hide EncodeVarint, Content, Serial, ValidColumn, WithContent;
    if cols != [] {
      var n := |Content(cols[0])|;
      var c, rest := WithContent(cols[0], bytes[..n]), Refill(cols[1..], bytes[n..]);
      RefillMeans(cols[1..], bytes[n..]);
      RefilledColumn(cols[0], bytes[..n]);
      ConsMeans(c, rest);
      assert bytes[..n] + bytes[n..] == bytes;
    }
  }

  // ---- Reading a cell from its front and whatever follows

  /** Whether the payload that the cell says it has ends in the buffer. */
  predicate EndsInside(buf: seq<byte>, at: nat, r: Row) {
    PayloadAt(at, r) + |Record(r.cols)| <= |buf|
  }

  /** What stands where the values would be. */
  function Found(buf: seq<byte>, at: nat, r: Row): (b: seq<byte>)
    requires EndsInside(buf, at, r)
    ensures |b| == |Values(r.cols)|
  {
    var rec := PayloadAt(at, r);
    buf[rec + HeaderEnd(r.cols)..rec + |Record(r.cols)|]
  }

  /** The two varints in front of a cell. */
  lemma ReadsFront(buf: seq<byte>, at: nat, r: Row, local: nat)
    requires ValidRow(r) && local <= |Record(r.cols)| < U64 && Has(buf, at, CellPart(r, local))
    ensures var p, i := EncodeVarint(|Record(r.cols)|), EncodeVarint(r.rowid);
            && Varint(buf, at) == Some((|Record(r.cols)|, |p|))
            && Varint(buf, at + |p|) == Some((r.rowid, |i|))
            && Has(buf, PayloadAt(at, r), Record(r.cols)[..local])
  {
    hide Varint, EncodeVarint, Record;
    var p, i := EncodeVarint(|Record(r.cols)|), EncodeVarint(r.rowid);
    var part := Record(r.cols)[..local];
    HasParts(buf, at, p, i + part);
    HasParts(buf, at + |p|, i, part);
    ReadsVarint(buf, at, |Record(r.cols)|);
    ReadsVarint(buf, at + |p|, r.rowid);
  }

  /** A payload past the end of the buffer is refused. */
  lemma PastTheEndIsRefused(buf: seq<byte>, at: nat, r: Row, local: nat)
    requires ValidRow(r) && local <= |Record(r.cols)| && Has(buf, at, CellPart(r, local))
    requires !EndsInside(buf, at, r) && PayloadAt(at, r) + |Record(r.cols)| < U64
    ensures CellColumns(buf, at).None?
  {
    hide Varint, EncodeVarint, Record;
    ReadsFront(buf, at, r, local);
    SpillRefusedIff(buf, at, |Record(r.cols)|, |EncodeVarint(|Record(r.cols)|)|, |EncodeVarint(r.rowid)|);
  }

  /** A payload that ends in the buffer is read on through whatever stands there: as the row's own columns with
      those bytes for contents, once the header is in the cell. */
  lemma ReadsOn(buf: seq<byte>, at: nat, r: Row, local: nat)
    requires ValidRow(r) && HeaderEnd(r.cols) <= local <= |Record(r.cols)| && Has(buf, at, CellPart(r, local))
    requires EndsInside(buf, at, r) && |buf| < U64
    ensures CellColumns(buf, at) == Some(First(Texts(Refill(r.cols, Found(buf, at, r))), MAX_TEXTS))
  {
    hide Varint, TextColumns, Types, Values, EncodeVarint, CellColumns, First, Texts, Refill;
    var types, cols' := Types(r.cols), Refill(r.cols, Found(buf, at, r));
    var hsize, rec := HeaderEnd(r.cols), PayloadAt(at, r);
    var p, i, h := EncodeVarint(|Record(r.cols)|), EncodeVarint(r.rowid), EncodeVarint(hsize);
    ReadsFront(buf, at, r, local);
    FrontParts(h, types, Values(r.cols), local);
    HasParts(buf, rec, h + types, Values(r.cols)[..local - hsize]);
    HasParts(buf, rec, h, types);
    ReadsVarint(buf, rec, hsize);
    RefillMeans(r.cols, Found(buf, at, r));
    ReadsColumns(buf, rec + |h|, rec + hsize, cols', MAX_TEXTS);
    CellSteps(buf, at, |Record(r.cols)|, |p|, |i|, hsize, |h|);
  }

  lemma FrontParts(h: seq<byte>, types: seq<byte>, values: seq<byte>, local: nat)
    requires |h| + |types| <= local <= |h| + |types| + |values|
    ensures (h + (types + values))[..local] == (h + types) + values[..local - |h| - |types|]
  {
  }

  /** So the comment's promise, that a spilled row is skipped, holds if and only if its payload would end past the
      buffer. */
  lemma SpilledIsSkippedIff(buf: seq<byte>, at: nat, r: Row, local: nat)
    requires ValidRow(r) && HeaderEnd(r.cols) <= local < |Record(r.cols)| && Has(buf, at, CellPart(r, local))
    requires |buf| < U64 && PayloadAt(at, r) + |Record(r.cols)| < U64
    ensures CellColumns(buf, at).None? <==> !EndsInside(buf, at, r)
  {
    hide Varint, TextColumns, EncodeVarint, CellColumns, Record;
    if EndsInside(buf, at, r) {
      ReadsOn(buf, at, r, local);
    } else {
      PastTheEndIsRefused(buf, at, r, local);
    }
  }

  // ---- When the entry of a spilled row is right

  /** The texts that are wholly in the first `n` bytes of the values. */
  function LocalTexts(cols: seq<Column>, n: nat): seq<seq<byte>> {
    if cols == [] || |Content(cols[0])| > n then []
    else (if cols[0].Text? then [cols[0].b] else []) + LocalTexts(cols[1..], n - |Content(cols[0])|)
  }

  /** A column that is no title id and no name. */
  predicate Junk(s: seq<byte>) {
    !IsTitleId(s) && !MayBeName(s)
  }

  ghost predicate AllJunk(ts: seq<seq<byte>>) {
    forall i | 0 <= i < |ts| :: Junk(ts[i])
  }

  lemma {:induction false} ControlIsNotClean(s: seq<byte>, k: nat)
    requires k < |s| && s[k] == 1
    ensures !CleanText(s)
    decreases |s|
  {
    if SeqLen(s) > 0 {
      var n := SeqLen(s);
      if k >= n {
        ControlIsNotClean(s[n..], k - n);
      }
    }
  }

  lemma ControlIsJunk(s: seq<byte>)
    requires s == [] || exists k | 0 <= k < |s| :: s[k] == 1
    ensures Junk(s)
  {
    if s != [] {
      var k :| 0 <= k < |s| && s[k] == 1;
      ControlIsNotClean(s, k);
    }
  }

  /** With contents that agree with the row's own on the first `n` bytes, the texts are those that are wholly
      there, and then others; all junk when the other bytes are. */
  lemma {:induction false} RefillLocal(cols: seq<Column>, bytes: seq<byte>, n: nat) returns (rest: seq<seq<byte>>)
    requires |bytes| == |Values(cols)| && n <= |bytes| && bytes[..n] == Values(cols)[..n]
    ensures Texts(Refill(cols, bytes)) == LocalTexts(cols, n) + rest
    ensures (forall k | n <= k < |bytes| :: bytes[k] == 1) ==> AllJunk(rest)
    decreases |cols|
  {
    hide Content, WithContent, Junk;
    if cols == [] {
      rest := [];
    } else {
      var c, m := cols[0], |Content(cols[0])|;
      var b, tail := bytes[..m], bytes[m..];
      var more := Refill(cols[1..], tail);
      ConsMeans(WithContent(c, b), more);
      RefilledColumn(c, b);
      if m <= n {
        SplitAgrees(bytes, Content(c), Values(cols[1..]), n);
        rest := RefillLocal(cols[1..], tail, n - m);
        RefilledColumn(c, Content(c));
        Assoc(if c.Text? then [c.b] else [], LocalTexts(cols[1..], n - m), rest);
        TextContent(c);
      } else {
        rest := Texts(Refill(cols, bytes));
        assert [] + rest == rest;
        if forall k | n <= k < |bytes| :: bytes[k] == 1 {
          assert b[n] == 1;
          ControlIsJunk(b);
          OnesAreJunk(cols[1..], tail);
        }
      }
    }
  }

  lemma SplitAgrees(bytes: seq<byte>, a: seq<byte>, b: seq<byte>, n: nat)
    requires |bytes| == |a| + |b| && |a| <= n <= |bytes| && bytes[..n] == (a + b)[..n]
    ensures bytes[..|a|] == a && bytes[|a|..][..n - |a|] == b[..n - |a|]
  {
    var m := |a|;
    assert bytes[..m] == bytes[..n][..m] == (a + b)[..n][..m];
    assert bytes[m..][..n - m] == bytes[..n][m..] == (a + b)[..n][m..];
  }

  lemma {:induction false} OnesAreJunk(cols: seq<Column>, bytes: seq<byte>)
    requires |bytes| == |Values(cols)| && forall k | 0 <= k < |bytes| :: bytes[k] == 1
    ensures AllJunk(Texts(Refill(cols, bytes)))
    decreases |cols|
  {
    hide Content, WithContent, Junk;
    if cols != [] {
      var m := |Content(cols[0])|;
      ConsMeans(WithContent(cols[0], bytes[..m]), Refill(cols[1..], bytes[m..]));
      RefilledColumn(cols[0], bytes[..m]);
      assert m > 0 ==> bytes[..m][0] == 1;
      ControlIsJunk(bytes[..m]);
      OnesAreJunk(cols[1..], bytes[m..]);
    }
  }

  lemma {:induction false} TitleIdOfConcat(a: seq<seq<byte>>, b: seq<seq<byte>>)
    ensures FirstTitleId(a + b) == if FirstTitleId(a).Some? then FirstTitleId(a) else FirstTitleId(b)
    decreases |a|
  {
    if a == [] {
      assert a + b == b;
    } else {
      assert (a + b)[1..] == a[1..] + b;
      TitleIdOfConcat(a[1..], b);
    }
  }

  lemma {:induction false} NameOfConcat(a: seq<seq<byte>>, b: seq<seq<byte>>)
    ensures FirstName(a + b) == if exists i | 0 <= i < |a| :: MayBeName(a[i]) then FirstName(a) else FirstName(b)
    decreases |a|
  {
    if a == [] {
      assert a + b == b;
    } else {
      assert (a + b)[1..] == a[1..] + b;
      NameOfConcat(a[1..], b);
      if !MayBeName(a[0]) {
        assert forall i | 0 < i < |a| :: a[i] == a[1..][i - 1];
        assert forall i | 0 <= i < |a[1..]| :: a[1..][i] == a[i + 1];
      }
    }
  }

  lemma {:induction false} NothingInJunk(ts: seq<seq<byte>>)
    requires AllJunk(ts)
    ensures FirstTitleId(ts).None? && FirstName(ts).None?
    decreases |ts|
  {
    if ts != [] {
      NothingInJunk(ts[1..]);
    }
  }

  lemma {:induction false} NoNameNoFirst(ts: seq<seq<byte>>)
    requires FirstName(ts).Some?
    ensures exists i | 0 <= i < |ts| :: MayBeName(ts[i])
    decreases |ts|
  {
    if !MayBeName(ts[0]) {
      NoNameNoFirst(ts[1..]);
      var i :| 0 <= i < |ts[1..]| && MayBeName(ts[1..][i]);
      assert MayBeName(ts[i + 1]);
    }
  }

  /** An entry with a name is settled by the columns up to the two it uses; junk never changes an entry. */
  lemma RowOfConcat(a: seq<seq<byte>>, b: seq<seq<byte>>, idsOnly: bool)
    ensures RowToEntry(a, idsOnly).Some? && RowToEntry(a, idsOnly).value.name != [] ==>
              RowToEntry(a + b, idsOnly) == RowToEntry(a, idsOnly)
    ensures AllJunk(b) ==> RowToEntry(a + b, idsOnly) == RowToEntry(a, idsOnly)
  {
    TitleIdOfConcat(a, b);
    NameOfConcat(a, b);
    if FirstName(a).Some? {
      NoNameNoFirst(a);
    }
    if AllJunk(b) {
      NothingInJunk(b);
    }
  }

  lemma FirstOfConcat<T>(a: seq<T>, b: seq<T>, n: nat)
    ensures First(a + b, n) == First(a, n) + if |a| >= n then [] else First(b, n - |a|)
  {
  }

  /** The columns the entry `e` is made of are in the cell itself. */
  ghost predicate UsedIsLocal(r: Row, local: nat, e: Entry, idsOnly: bool) {
    && HeaderEnd(r.cols) <= local
    && RowToEntry(First(LocalTexts(r.cols, local - HeaderEnd(r.cols)), MAX_TEXTS), idsOnly) == Some(e)
  }

  /** The cell read from its front with `post` after it. */
  function ReadWith(pre: seq<byte>, r: Row, local: nat, post: seq<byte>, idsOnly: bool): Option<Entry>
    requires local <= |Record(r.cols)|
  {
    ReadCell(pre + CellPart(r, local) + post, |pre|, idsOnly)
  }

  /** Bytes that may follow: enough of them for the payload to end inside. */
  predicate Follows(pre: seq<byte>, r: Row, local: nat, post: seq<byte>) {
    local <= |Record(r.cols)| && local + |post| >= |Record(r.cols)|
    && PayloadAt(|pre|, r) + local + |post| < U64
  }

  /** A spilled row whose payload would end in the buffer gives the entry `e` whatever bytes follow its cell, if
      and only if the columns `e` is made of are in the cell; and then `e` is the row's own entry. */
  lemma SpilledIsRightIff(pre: seq<byte>, r: Row, local: nat, e: Entry, idsOnly: bool)
    requires ValidRow(r) && 9 <= local < |Record(r.cols)| && e.name != []
    requires PayloadAt(|pre|, r) + |Record(r.cols)| < U64
    ensures (forall post | Follows(pre, r, local, post) :: ReadWith(pre, r, local, post, idsOnly) == Some(e)) <==>
              UsedIsLocal(r, local, e, idsOnly)
    ensures UsedIsLocal(r, local, e, idsOnly) ==> EntryOf(r, idsOnly) == Some(e)
  {
    hide RowToEntry, Record, CellPart, EncodeVarint, ReadCell, ValidRow;
    if UsedIsLocal(r, local, e, idsOnly) {
      forall post | Follows(pre, r, local, post) ensures ReadWith(pre, r, local, post, idsOnly) == Some(e) {
        LocalGivesEntry(pre, r, local, post, e, idsOnly);
      }
      LocalIsOwn(r, local, e, idsOnly);
    } else {
      var post := seq(|Record(r.cols)| - local, _ => 1);
      assert Follows(pre, r, local, post);
      if HeaderEnd(r.cols) <= local {
        OnesGiveLocal(pre, r, local, post, idsOnly);
      } else {
        OnesGiveNothing(pre, r, local, post, idsOnly);
      }
      assert ReadWith(pre, r, local, post, idsOnly) != Some(e);
    }
  }

  lemma PartLength(r: Row, local: nat)
    requires local <= |Record(r.cols)|
    ensures |CellPart(r, local)| == PayloadAt(0, r) + local
  {
  }

  /** The texts read when the header is in the cell: the local ones, and others. */
  lemma ReadsLocalFirst(pre: seq<byte>, r: Row, local: nat, post: seq<byte>) returns (rest: seq<seq<byte>>)
    requires ValidRow(r) && HeaderEnd(r.cols) <= local <= |Record(r.cols)| && Follows(pre, r, local, post)
    ensures var buf := pre + CellPart(r, local) + post;
            CellColumns(buf, |pre|)
            == Some(First(LocalTexts(r.cols, local - HeaderEnd(r.cols)) + rest, MAX_TEXTS))
    ensures (forall k | 0 <= k < |post| :: post[k] == 1) ==> AllJunk(rest)
  {
    hide CellColumns, Texts, First, Refill, LocalTexts, EncodeVarint, Types, Values, AllJunk;
    var buf, n := pre + CellPart(r, local) + post, local - HeaderEnd(r.cols);
    PartLength(r, local);
    assert Has(buf, |pre|, CellPart(r, local));
    ReadsOn(buf, |pre|, r, local);
    FoundAgrees(pre, r, local, post);
    rest := RefillLocal(r.cols, Found(buf, |pre|, r), n);
  }

  /** A row of a title id and a name, cut inside the name: the bytes that stand where the lost ones would be are
      read as the end of the name. */
  lemma CutNameIsMisread(pre: seq<byte>, r: Row, id: seq<byte>, kept: seq<byte>, lost: seq<byte>,
                         post: seq<byte>, idsOnly: bool)
    requires ValidRow(r) && r.cols == [Text(id), Text(kept + lost)] && HeaderEnd(r.cols) <= |Record(r.cols)| - |lost|
    requires |lost| <= |post| && Follows(pre, r, |Record(r.cols)| - |lost|, post)
    ensures ReadWith(pre, r, |Record(r.cols)| - |lost|, post, idsOnly)
            == RowToEntry([id, kept + post[..|lost|]], idsOnly)
  {
    hide RowToEntry, CellColumns, Record, CellPart, EncodeVarint, ValidRow, Values, Texts, Refill;
    var local, x := |Record(r.cols)| - |lost|, post[..|lost|];
    var buf := pre + CellPart(r, local) + post;
    TwoTexts(id, kept + lost);
    FoundAgrees(pre, r, local, post);
    var found := Found(buf, |pre|, r);
    FoundInTwo(id, kept, lost, x, found, local - HeaderEnd(r.cols));
    PartLength(r, local);
    assert Has(buf, |pre|, CellPart(r, local));
    ReadsOn(buf, |pre|, r, local);
    RefillTwo(id, kept + lost, kept + x);
  }

  lemma TwoTexts(a: seq<byte>, b: seq<byte>)
    ensures Values([Text(a), Text(b)]) == a + b && Texts([Text(a), Text(b)]) == [a, b]
  {
    var none: seq<Column> := [];
    ConsMeans(Text(b), none);
    ConsMeans(Text(a), [Text(b)]);
    assert [Text(b)] + none == [Text(b)] && [Text(a)] + [Text(b)] == [Text(a), Text(b)];
    assert b + Values(none) == b && [b] + Texts(none) == [b];
    assert Texts([Text(b)]) == [b];
    assert [a] + [b] == [a, b];
  }

  lemma RefillTwo(a: seq<byte>, b: seq<byte>, b': seq<byte>)
    requires |b'| == |b|
    ensures |Values([Text(a), Text(b)])| == |a + b'|
    ensures Texts(Refill([Text(a), Text(b)], a + b')) == [a, b']
  {
    hide Values, Texts;
    var cols := [Text(a), Text(b)];
    TwoTexts(a, b);
    TwoTexts(a, b');
    Halves(a, b');
    OneText(b);
    assert cols[1..] == [Text(b)];
    RefillOne(b, b');
    assert Refill(cols, a + b') == [Text(a)] + [Text(b')] == [Text(a), Text(b')];
  }

  lemma OneText(b: seq<byte>)
    ensures Values([Text(b)]) == b
  {
    assert [Text(b)][1..] == [] && Values([]) == [] && b + [] == b;
  }

  lemma RefillOne(b: seq<byte>, b': seq<byte>)
    requires |b'| == |b| && Values([Text(b)]) == b
    ensures Refill([Text(b)], b') == [Text(b')]
  {
    assert [Text(b)][1..] == [] && b'[..|b|] == b' && b'[|b|..] == [];
    assert Refill([], []) == [];
  }

  lemma Halves<T>(a: seq<T>, b: seq<T>)
    ensures (a + b)[..|a|] == a && (a + b)[|a|..] == b
  {
  }

  lemma FoundInTwo(id: seq<byte>, kept: seq<byte>, lost: seq<byte>, x: seq<byte>, found: seq<byte>, n: nat)
    requires |x| == |lost| && |found| == |id| + |kept| + |lost| && n == |id| + |kept|
    requires found[..n] == (id + (kept + lost))[..n] && found[n..] == x
    ensures found == id + (kept + x)
  {
    assert (id + (kept + lost))[..n] == id + kept;
    assert found == found[..n] + found[n..];
  }

  /** What is found for the values: the local ones, and then the bytes that follow. */
  lemma FoundAgrees(pre: seq<byte>, r: Row, local: nat, post: seq<byte>)
    requires HeaderEnd(r.cols) <= local <= |Record(r.cols)| && Follows(pre, r, local, post)
    ensures var buf, n := pre + CellPart(r, local) + post, local - HeaderEnd(r.cols);
            && EndsInside(buf, |pre|, r) && n <= |Values(r.cols)|
            && Found(buf, |pre|, r)[..n] == Values(r.cols)[..n]
            && Found(buf, |pre|, r)[n..] == post[..|Record(r.cols)| - local]
  {
    hide EncodeVarint, Types, Values;
    var record, h, values := Record(r.cols), HeaderEnd(r.cols), Values(r.cols);
    var n := local - h;
    var front := EncodeVarint(|record|) + EncodeVarint(r.rowid);
    var head := EncodeVarint(HeaderSize(|Types(r.cols)|)) + Types(r.cols);
    FrontParts(EncodeVarint(HeaderSize(|Types(r.cols)|)), Types(r.cols), values, local);
    var buf := pre + CellPart(r, local) + post;
    assert buf == (pre + front + head) + (values[..n] + post);
    var found := Found(buf, |pre|, r);
    assert |pre + front + head| == PayloadAt(|pre|, r) + h;
    assert found == (values[..n] + post)[..|values|];
  }

  lemma LocalGivesEntry(pre: seq<byte>, r: Row, local: nat, post: seq<byte>, e: Entry, idsOnly: bool)
    requires ValidRow(r) && local <= |Record(r.cols)| && Follows(pre, r, local, post) && e.name != []
    requires UsedIsLocal(r, local, e, idsOnly)
    ensures ReadWith(pre, r, local, post, idsOnly) == Some(e)
  {
    hide RowToEntry, CellColumns, Record, CellPart, EncodeVarint, LocalTexts, First, ValidRow, HeaderEnd;
    var rest := ReadsLocalFirst(pre, r, local, post);
    var a := LocalTexts(r.cols, local - HeaderEnd(r.cols));
    FirstOfConcat(a, rest, MAX_TEXTS);
    RowOfConcat(First(a, MAX_TEXTS), if |a| >= MAX_TEXTS then [] else First(rest, MAX_TEXTS - |a|), idsOnly);
  }

  /** And it is the row's own: the row's texts are the local ones and others. */
  lemma LocalIsOwn(r: Row, local: nat, e: Entry, idsOnly: bool)
    requires ValidRow(r) && local <= |Record(r.cols)| && UsedIsLocal(r, local, e, idsOnly) && e.name != []
    ensures EntryOf(r, idsOnly) == Some(e)
  {
    hide RowToEntry, Record, EncodeVarint, LocalTexts, First, Texts;
    var n := local - HeaderEnd(r.cols);
    var rest := RefillLocal(r.cols, Values(r.cols), n);
    RefillOwn(r.cols);
    var a := LocalTexts(r.cols, n);
    FirstOfConcat(a, rest, MAX_TEXTS);
    RowOfConcat(First(a, MAX_TEXTS), if |a| >= MAX_TEXTS then [] else First(rest, MAX_TEXTS - |a|), idsOnly);
  }

  lemma {:induction false} RefillOwn(cols: seq<Column>)
    ensures Refill(cols, Values(cols)) == cols
    decreases |cols|
  {
    hide Content;
    if cols != [] {
      Halves(Content(cols[0]), Values(cols[1..]));
      RefillOwn(cols[1..]);
      OwnContent(cols[0]);
    }
  }

  lemma OwnContent(c: Column)
    ensures WithContent(c, Content(c)) == c
  {
  }

  lemma OnesGiveLocal(pre: seq<byte>, r: Row, local: nat, post: seq<byte>, idsOnly: bool)
    requires ValidRow(r) && HeaderEnd(r.cols) <= local <= |Record(r.cols)| && Follows(pre, r, local, post)
    requires forall k | 0 <= k < |post| :: post[k] == 1
    ensures ReadWith(pre, r, local, post, idsOnly)
            == RowToEntry(First(LocalTexts(r.cols, local - HeaderEnd(r.cols)), MAX_TEXTS), idsOnly)
  {
    hide RowToEntry, CellColumns, Record, CellPart, EncodeVarint, LocalTexts, ValidRow, HeaderEnd;
    var rest := ReadsLocalFirst(pre, r, local, post);
    var a := LocalTexts(r.cols, local - HeaderEnd(r.cols));
    var b := if |a| >= MAX_TEXTS then [] else First(rest, MAX_TEXTS - |a|);
    FirstOfConcat(a, rest, MAX_TEXTS);
    assert AllJunk(b);
    RowOfConcat(First(a, MAX_TEXTS), b, idsOnly);
  }

  /** Columns of a region of such bytes are junk. */
  lemma {:induction false} JunkColumns(buf: seq<byte>, toff: nat, hend: nat, voff: nat, room: nat)
    requires forall k | voff <= k < |buf| :: buf[k] == 1
    ensures var r := TextColumns(buf, toff, hend, voff, room);
            r.Some? ==> AllJunk(r.value)
    decreases hend - toff
  {
    hide Varint, Size, IsText, Junk;
    if toff < hend && room > 0 && Varint(buf, toff).Some? {
      var (stype, adv) := Varint(buf, toff).value;
      VarintAdvances(buf, toff);
      var w := Size(stype);
      if voff + w <= |buf| {
        var b := buf[voff..voff + w];
        assert w > 0 ==> b[0] == 1;
        ControlIsJunk(b);
        JunkColumns(buf, toff + adv, hend, voff + w, if IsText(stype) then room - 1 else room);
        ColumnsStep(buf, toff, hend, voff, room, stype, adv);
      }
    }
  }

  /** With the header itself cut, no value is in the cell. */
  lemma OnesGiveNothing(pre: seq<byte>, r: Row, local: nat, post: seq<byte>, idsOnly: bool)
    requires ValidRow(r) && 9 <= local < HeaderEnd(r.cols) && Follows(pre, r, local, post)
    requires forall k | 0 <= k < |post| :: post[k] == 1
    ensures ReadWith(pre, r, local, post, idsOnly).None?
  {
    hide Varint, TextColumns, Types, Values, EncodeVarint, CellColumns, RowToEntry, AllJunk, CellPart;
    var buf, rec, hsize := pre + CellPart(r, local) + post, PayloadAt(|pre|, r), HeaderEnd(r.cols);
    var p, i, h := EncodeVarint(|Record(r.cols)|), EncodeVarint(r.rowid), EncodeVarint(hsize);
    PartLength(r, local);
    assert Has(buf, |pre|, CellPart(r, local));
    ReadsFront(buf, |pre|, r, local);
    EncodedLength(hsize);
    assert Record(r.cols)[..local] == h + Record(r.cols)[|h|..local];
    HasParts(buf, rec, h, Record(r.cols)[|h|..local]);
    ReadsVarint(buf, rec, hsize);
    CellSteps(buf, |pre|, |Record(r.cols)|, |p|, |i|, hsize, |h|);
    forall k | rec + hsize <= k < |buf| ensures buf[k] == 1 {
      assert buf[k] == post[k - |pre| - |CellPart(r, local)|];
    }
    JunkColumns(buf, rec + |h|, rec + hsize, rec + hsize, MAX_TEXTS);
    JunkGivesNothing(CellColumns(buf, |pre|), idsOnly);
  }

  lemma JunkGivesNothing(cols: Option<seq<seq<byte>>>, idsOnly: bool)
    requires cols.Some? ==> AllJunk(cols.value)
    ensures cols.Some? ==> RowToEntry(cols.value, idsOnly).None?
  {
    if cols.Some? {
      NothingInJunk(cols.value);
    }
  }
}
