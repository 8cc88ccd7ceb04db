/** The reader of Sony's app.db without sqlite (payload/include/appdb_scan.h): varints, record headers,
    leaf pages, and one entry per title. Offsets into the buffer are natural numbers; a size read from the
    file is added to one in 64 bits. */
module AppDbScan {
  import opened Bytes
  import JsonText
  import opened Wrappers

  // ---- appdb_varint

  /** From byte `i` of the varint at `off`, with `v` read so far: the value and the bytes consumed. */
  function VarintFrom(b: seq<byte>, off: nat, i: nat, v: nat): (r: Option<(nat, nat)>)
    requires i <= 8
    ensures r.Some? ==> i < r.value.1 <= 9 && off + r.value.1 <= |b|
    decreases 8 - i
  {
    if off + i >= |b| then None
    else
      var c: int := b[off + i];
      if i == 8 then Some((v * 256 + c, 9))
      else if c < 128 then Some((v * 128 + c, i + 1))
      else VarintFrom(b, off, i + 1, v * 128 + (c - 128))
  }

  function Varint(b: seq<byte>, off: nat): Option<(nat, nat)> {
    VarintFrom(b, off, 0, 0)
  }

  /** The loop of `appdb_varint`. */
  method ReadVarint(b: seq<byte>, off: nat) returns (r: Option<(nat, nat)>)
    ensures r == Varint(b, off)
  {
    var v: nat, i: nat := 0, 0;
    ghost var all := VarintFrom(b, off, i, v);
    while i < 9
      invariant i <= 8 && VarintFrom(b, off, i, v) == all
      decreases 9 - i
    {
      if off + i >= |b| { return None; }
      var c: int := b[off + i];
      if i == 8 { return Some((v * 256 + c, 9)); }
      if c < 128 { return Some((v * 128 + c, i + 1)); }
      v := v * 128 + (c - 128);
      i := i + 1;
    }
  }

  // ---- The encoding it inverts (section 1.6 of the SQLite Database File Format)

  function Pow128(n: nat): (p: nat)
    ensures p > 0
  {
    if n == 0 then 1 else 128 * Pow128(n - 1)
  }

  /** `n` groups of seven bits, most significant first, each with its continuation bit. */
  function Groups(x: nat, n: nat): (r: seq<byte>)
    ensures |r| == n
    decreases n
  {
    if n == 0 then [] else Groups(x / 128, n - 1) + [128 + x % 128]
  }

  /** How many seven-bit groups `x` needs. */
  function GroupCount(x: nat): (n: nat)
    ensures n >= 1
  {
    if x < 128 then 1 else 1 + GroupCount(x / 128)
  }

  /** Up to eight groups, or eight groups and a whole last byte. */
  function EncodeVarint(x: nat): seq<byte> {
    if x < Pow128(8) then Groups(x / 128, GroupCount(x) - 1) + [x % 128]
    else Groups(x / 256, 8) + [x % 256]
  }

  /** `v` with the `n` groups of `x` shifted in. */
  function ShiftIn(v: nat, x: nat, n: nat): nat
    decreases n
  {
    if n == 0 then v else ShiftIn(v, x / 128, n - 1) * 128 + x % 128
  }

  lemma {:induction false} ShiftInAll(x: nat, n: nat)
    requires x < Pow128(n)
    ensures ShiftIn(0, x, n) == x
    decreases n
  {
    if n > 0 {
      ShiftInAll(x / 128, n - 1);
    }
  }

  /** Reading `n` continued groups shifts them in. */
  lemma {:induction false} ReadsGroups(b: seq<byte>, off: nat, i: nat, v: nat, x: nat, n: nat)
    requires i + n <= 8 && off + i + n < |b| && b[off + i..off + i + n] == Groups(x, n)
    ensures VarintFrom(b, off, i, v) == VarintFrom(b, off, i + n, ShiftIn(v, x, n))
    decreases n
  {
    hide VarintFrom, Groups;
    if n > 0 {
      LastGroup(b, off + i, x, n);
      ReadsGroups(b, off, i, v, x / 128, n - 1);
      ReadsOne(b, off, i + n - 1, ShiftIn(v, x / 128, n - 1), x % 128);
    }
  }

  lemma LastGroup(b: seq<byte>, at: nat, x: nat, n: nat)
    requires n > 0 && at + n <= |b| && b[at..at + n] == Groups(x, n)
    ensures b[at..at + n - 1] == Groups(x / 128, n - 1) && b[at + n - 1] == 128 + x % 128
  {
    var g := b[at..at + n];
    assert g[..n - 1] == Groups(x / 128, n - 1) && g[n - 1] == 128 + x % 128;
    assert g[..n - 1] == b[at..at + n - 1] && g[n - 1] == b[at + n - 1];
  }

  lemma ReadsOne(b: seq<byte>, off: nat, i: nat, v: nat, d: nat)
    requires i < 8 && off + i < |b| && d < 128 && b[off + i] == 128 + d
    ensures VarintFrom(b, off, i, v) == VarintFrom(b, off, i + 1, v * 128 + d)
  {
  }

  /** A byte without the continuation bit ends the varint; so does the ninth, whatever it is. */
  lemma ReadsLast(b: seq<byte>, off: nat, i: nat, v: nat, d: nat)
    requires i <= 8 && off + i < |b| && b[off + i] == d && (i < 8 ==> d < 128)
    ensures VarintFrom(b, off, i, v) == Some((v * (if i == 8 then 256 else 128) + d, i + 1))
  {
  }

  lemma {:induction false} GroupCountFits(x: nat)
    ensures x < Pow128(GroupCount(x))
    ensures x / 128 < Pow128(GroupCount(x) - 1)
    ensures forall n: nat | x < Pow128(n) && n >= 1 :: GroupCount(x) <= n
    decreases x
  {
    if x >= 128 {
      GroupCountFits(x / 128);
      assert Pow128(1) == 128 * Pow128(0);
      forall n: nat | x < Pow128(n) && n >= 1 ensures GroupCount(x) <= n {
        assert n >= 2;
        assert x / 128 < Pow128(n - 1);
      }
    } else {
      assert Pow128(1) == 128 * Pow128(0);
    }
  }

  /** Decoding inverts the encoding for every 64-bit value, wherever it stands and whatever follows. */
  lemma VarintRoundTrip(pre: seq<byte>, x: nat, post: seq<byte>)
    requires x < 0x1_0000_0000_0000_0000
    ensures Varint(pre + EncodeVarint(x) + post, |pre|) == Some((x, |EncodeVarint(x)|))
    ensures 1 <= |EncodeVarint(x)| <= 9
  {
    var e := EncodeVarint(x);
    var b := pre + e + post;
    EncodedLength(x);
    assert b[|pre|..|pre| + |e|] == e;
    if x < Pow128(8) {
      ReadsShort(b, |pre|, x);
    } else {
      ReadsLong(b, |pre|, x);
    }
  }

  lemma EncodedLength(x: nat)
    ensures 1 <= |EncodeVarint(x)| <= 9
  {
    GroupCountFits(x);
  }

  lemma ReadsShort(b: seq<byte>, off: nat, x: nat)
    requires x < Pow128(8)
    requires off + |EncodeVarint(x)| <= |b| && b[off..off + |EncodeVarint(x)|] == EncodeVarint(x)
    ensures Varint(b, off) == Some((x, |EncodeVarint(x)|))
  {
    var e, n := EncodeVarint(x), GroupCount(x) - 1;
    GroupCountFits(x);
    assert e[..n] == Groups(x / 128, n) && e[n] == x % 128;
    SliceOfSlice(b, off, off + |e|, 0, n);
    assert b[off..off + |e|][n] == b[off + n];
    hide VarintFrom, Groups, ShiftIn;
    ReadsGroups(b, off, 0, 0, x / 128, n);
    ShiftInAll(x / 128, n);
    ReadsLast(b, off, n, x / 128, x % 128);
  }

  lemma ReadsLong(b: seq<byte>, off: nat, x: nat)
    requires Pow128(8) <= x < 0x1_0000_0000_0000_0000
    requires off + |EncodeVarint(x)| <= |b| && b[off..off + |EncodeVarint(x)|] == EncodeVarint(x)
    ensures Varint(b, off) == Some((x, |EncodeVarint(x)|))
  {
    var e := EncodeVarint(x);
    PowOfEight();
    assert e[..8] == Groups(x / 256, 8) && e[8] == x % 256;
    SliceOfSlice(b, off, off + 9, 0, 8);
    assert b[off..off + 9][8] == b[off + 8];
    hide VarintFrom, Groups, ShiftIn;
    ReadsGroups(b, off, 0, 0, x / 256, 8);
    ShiftInAll(x / 256, 8);
    ReadsLast(b, off, 8, x / 256, x % 256);
  }

  lemma PowOfEight()
    ensures Pow128(8) == 0x100_0000_0000_0000
  {
    assert Pow128(1) == 128 && Pow128(2) == 0x4000 && Pow128(3) == 0x20_0000;
    assert Pow128(4) == 0x1000_0000 && Pow128(5) == 0x8_0000_0000 && Pow128(6) == 0x400_0000_0000;
    assert Pow128(7) == 0x2_0000_0000_0000;
  }

  // ---- Text

  /** `appdb_text_seq_len`: the length of the printable character at the front of `p`, or 0. */
  function SeqLen(p: seq<byte>): (n: nat)
    ensures n <= |p| && n <= 4
  {
    if p == [] then 0
    else if 0x20 <= p[0] < 0x7F then 1
    else
      var need := if 0xC2 <= p[0] <= 0xDF then 2 else if 0xE0 <= p[0] <= 0xEF then 3
                  else if 0xF0 <= p[0] <= 0xF4 then 4 else 0;
      if need == 0 || |p| < need then 0
      else if forall k | 1 <= k < need :: 0x80 <= p[k] <= 0xBF then need else 0
  }

  /** `appdb_is_clean_text` */
  predicate CleanText(s: seq<byte>)
    decreases |s|
  {
    s == [] || (SeqLen(s) > 0 && CleanText(s[SeqLen(s)..]))
  }

  /** The second bytes that the length table lets through and UTF-8 does not: over-long forms,
      surrogates, and values past U+10FFFF. */
  predicate Loose(p: seq<byte>) {
    |p| >= 2 &&
    (|| (p[0] == 0xE0 && p[1] < 0xA0) || (p[0] == 0xED && p[1] >= 0xA0)
     || (p[0] == 0xF0 && p[1] < 0x90) || (p[0] == 0xF4 && p[1] >= 0x90))
  }

  /** An accepted character is UTF-8 exactly when it is not one of those. */
  lemma AcceptedIsUtf8Iff(p: seq<byte>)
    requires SeqLen(p) > 0
    ensures JsonText.Utf8Scalar(p[..SeqLen(p)]).Some? <==> !Loose(p)
  {
    var c := p[..SeqLen(p)];
    assert c[0] == p[0];
    assert |c| > 1 ==> c[1] == p[1];
  }

  /** Every printable UTF-8 character is accepted whole. */
  lemma Utf8IsAccepted(c: seq<byte>, rest: seq<byte>)
    requires JsonText.Utf8Scalar(c).Some?
    requires JsonText.Utf8Scalar(c).value >= 0x20 && JsonText.Utf8Scalar(c).value != 0x7F
    ensures SeqLen(c + rest) == |c|
  {
    var p := c + rest;
    assert forall k | 0 <= k < |c| :: p[k] == c[k];
  }

  /** So "clean" text need not be UTF-8, as its comment says it is: an over-long form passes. */
  lemma CleanButNotUtf8()
    ensures CleanText([0xE0, 0x80, 0x80]) && JsonText.Utf8Scalar([0xE0, 0x80, 0x80]).None?
  {
    var s: seq<byte> := [0xE0, 0x80, 0x80];
    assert SeqLen(s) == 3;
    assert s[3..] == [];
  }

  /** Nor need its characters be printable, as the comment has it: U+0085, a control character, passes. */
  lemma CleanButNotPrintable()
    ensures CleanText([0xC2, 0x85]) && JsonText.Utf8Scalar([0xC2, 0x85]) == Some(0x85)
  {
    var s: seq<byte> := [0xC2, 0x85];
    assert SeqLen(s) == 2;
    assert s[2..] == [];
  }

  /** No control character: those below U+0020, and U+007F to U+009F. */
  predicate Printable(scalar: nat) {
    scalar >= 0x20 && !(0x7F <= scalar <= 0x9F)
  }

  /** One printable character of UTF-8. */
  predicate PrintableChar(c: seq<byte>) {
    JsonText.Utf8Scalar(c).Some? && Printable(JsonText.Utf8Scalar(c).value)
  }

  /** Printable UTF-8, said without the code's tables: one character after another. */
  ghost predicate PrintableText(s: seq<byte>)
    decreases |s|
  {
    s == [] || exists n | 0 < n <= |s| :: PrintableChar(s[..n]) && PrintableText(s[n..])
  }

  /** What the length table lets through at the front: a form that is not UTF-8, or a control character. */
  predicate BadStart(p: seq<byte>) {
    Loose(p) || (|p| >= 2 && p[0] == 0xC2 && p[1] < 0xA0)
  }

  /** An accepted character is a printable one of UTF-8 exactly when it is not of those forms. */
  lemma AcceptedIsPrintableIff(p: seq<byte>)
    requires SeqLen(p) > 0
    ensures PrintableChar(p[..SeqLen(p)]) <==> !BadStart(p)
  {
    AcceptedIsUtf8Iff(p);
    var c := p[..SeqLen(p)];
    assert c[0] == p[0];
    assert |c| > 1 ==> c[1] == p[1];
  }

  /** None of the characters the check takes is of those forms. */
  predicate NoBad(s: seq<byte>)
    decreases |s|
  {
    s == [] || SeqLen(s) == 0 || (!BadStart(s) && NoBad(s[SeqLen(s)..]))
  }

  /** A text is printable UTF-8 if and only if the check takes it and none of its characters is of a bad form. */
  lemma {:induction false} PrintableIffClean(s: seq<byte>)
    ensures PrintableText(s) <==> CleanText(s) && NoBad(s)
    decreases |s|
  {
    hide SeqLen, BadStart, PrintableChar;
    if s != [] {
      var k := SeqLen(s);
      if k > 0 {
        AcceptedIsPrintableIff(s);
        PrintableIffClean(s[k..]);
      }
      if n :| 0 < n <= |s| && PrintableChar(s[..n]) && PrintableText(s[n..]) {
        PrintableIsTaken(s, n);
      }
    }
  }

  lemma PrintableIsTaken(s: seq<byte>, n: nat)
    requires n <= |s| && PrintableChar(s[..n])
    ensures SeqLen(s) == n
  {
    Utf8IsAccepted(s[..n], s[n..]);
    assert s == s[..n] + s[n..];
  }

  lemma SeqLenBeforeSpace(s: seq<byte>)
    requires s != []
    ensures SeqLen(s + [0x20]) == SeqLen(s)
  {
    var t := s + [0x20];
    assert t[|s|] == 0x20;
    assert forall k | 0 <= k < |s| :: t[k] == s[k];
  }

  /** Cutting a trailing space never cuts a character. */
  lemma {:induction false} CleanWithoutSpace(s: seq<byte>)
    requires CleanText(s + [0x20])
    ensures CleanText(s)
    decreases |s|
  {
    if s != [] {
      var t := s + [0x20];
      var n := SeqLen(t);
      SeqLenBeforeSpace(s);
      assert t[n..] == s[n..] + [0x20];
      CleanWithoutSpace(s[n..]);
    }
  }

  // ---- Rows

  predicate Upper(c: int) {
    65 <= c <= 90
  }

  predicate Digit(c: int) {
    48 <= c <= 57
  }

  /** `appdb_is_title_id`: four uppercase letters, then five digits. */
  predicate IsTitleId(s: seq<byte>) {
    |s| == 9 && (forall i | 0 <= i < 4 :: Upper(s[i])) && (forall i | 4 <= i < 9 :: Digit(s[i]))
  }

  /** `appdb_is_not_a_name`: paths, handles, ids, dates and content ids. */
  predicate IsNotAName(s: seq<byte>) {
    || |s| < 2
    || s[0] == 47
    || (|s| >= 4 && s[..4] == [99, 105, 100, 58])
    || IsTitleId(s)
    || (|s| >= 10 && s[4] == 45 && s[7] == 45 && forall i | 0 <= i < 4 :: Digit(s[i]))
    || (|s| >= 7 && Upper(s[0]) && Upper(s[1]) && (forall i | 2 <= i < 6 :: Digit(s[i])) && s[6] == 45)
  }

  datatype Entry = Entry(titleId: seq<byte>, name: seq<byte>)

  function TrimSpaces(s: seq<byte>): (r: seq<byte>)
    ensures |r| <= |s| && (r == [] || r[|r| - 1] != 0x20)
  {
    if s != [] && s[|s| - 1] == 0x20 then TrimSpaces(s[..|s| - 1]) else s
  }

  function FirstTitleId(cols: seq<seq<byte>>): Option<seq<byte>> {
    if cols == [] then None else if IsTitleId(cols[0]) then Some(cols[0]) else FirstTitleId(cols[1..])
  }

  predicate MayBeName(s: seq<byte>) {
    0 < |s| < 256 && !IsNotAName(s) && CleanText(s)
  }

  /** The first column that can be a name, without its padding; None when there is none or it is too
      short then. */
  function FirstName(cols: seq<seq<byte>>): (r: Option<seq<byte>>)
    decreases |cols|
  {
    if cols == [] then None
    else if !MayBeName(cols[0]) then FirstName(cols[1..])
    else
      var n := TrimSpaces(cols[0]);
      if |n| >= 2 then Some(n) else None
  }

  /** `appdb_row_to_entry` on a row's text columns. */
  function RowToEntry(cols: seq<seq<byte>>, idsOnly: bool): Option<Entry> {
    match FirstTitleId(cols)
    case None => None
    case Some(id) =>
      match FirstName(cols)
      case Some(name) => Some(Entry(id, name))
      case None => if idsOnly then Some(Entry(id, [])) else None
  }

  ghost predicate FirstSuch(cols: seq<seq<byte>>, p: seq<byte> -> bool, i: int) {
    0 <= i < |cols| && p(cols[i]) && forall k | 0 <= k < i :: !p(cols[k])
  }

  lemma {:induction false} FirstTitleIdMeans(cols: seq<seq<byte>>)
    ensures FirstTitleId(cols).None? ==> forall i | 0 <= i < |cols| :: !IsTitleId(cols[i])
    ensures FirstTitleId(cols).Some? ==>
              exists i | FirstSuch(cols, IsTitleId, i) :: cols[i] == FirstTitleId(cols).value
    decreases |cols|
  {
    if cols != [] {
      if IsTitleId(cols[0]) {
        assert FirstSuch(cols, IsTitleId, 0);
      } else {
        FirstTitleIdMeans(cols[1..]);
        if FirstTitleId(cols[1..]).Some? {
          var i :| FirstSuch(cols[1..], IsTitleId, i) && cols[1..][i] == FirstTitleId(cols[1..]).value;
          assert FirstSuch(cols, IsTitleId, i + 1);
        }
      }
    }
  }

  lemma {:induction false} FirstNameMeans(cols: seq<seq<byte>>)
    ensures FirstName(cols).None? ==>
              || (forall i | 0 <= i < |cols| :: !MayBeName(cols[i]))
              || (exists i | FirstSuch(cols, MayBeName, i) :: |TrimSpaces(cols[i])| < 2)
    ensures FirstName(cols).Some? ==>
              exists i | FirstSuch(cols, MayBeName, i) ::
                FirstName(cols).value == TrimSpaces(cols[i]) && |TrimSpaces(cols[i])| >= 2
    decreases |cols|
  {
    if cols != [] {
      if MayBeName(cols[0]) {
        assert FirstSuch(cols, MayBeName, 0);
      } else {
        FirstNameMeans(cols[1..]);
        forall i | FirstSuch(cols[1..], MayBeName, i) ensures FirstSuch(cols, MayBeName, i + 1) {}
        assert forall i | 0 < i < |cols| :: cols[i] == cols[1..][i - 1];
        if i :| FirstSuch(cols[1..], MayBeName, i) {
          assert FirstSuch(cols, MayBeName, i + 1);
        }
      }
    }
  }

  /** Which entry a row gives: the first column that is a title id, and the first that can be a name, trimmed.
      There is none without a title id, nor, unless ids alone are asked for, without such a name of two
      bytes. */
  lemma RowMeans(cols: seq<seq<byte>>, idsOnly: bool)
    ensures var r := RowToEntry(cols, idsOnly);
            && (r.Some? ==> exists i | FirstSuch(cols, IsTitleId, i) :: r.value.titleId == cols[i])
            && (r.Some? && r.value.name != [] ==>
                  exists i | FirstSuch(cols, MayBeName, i) :: r.value.name == TrimSpaces(cols[i]))
            && (r.Some? && r.value.name == [] ==> idsOnly)
            && (r.None? <==>
                  || (forall i | 0 <= i < |cols| :: !IsTitleId(cols[i]))
                  || (!idsOnly && !(exists i | FirstSuch(cols, MayBeName, i) :: |TrimSpaces(cols[i])| >= 2)))
  {
    FirstTitleIdMeans(cols);
    FirstNameMeans(cols);
    forall i, j | FirstSuch(cols, MayBeName, i) && FirstSuch(cols, MayBeName, j) ensures i == j {}
  }

  /** The bytes a value of this serial type takes. */
  function Size(stype: nat): nat {
    if stype == 0 || stype == 8 || stype == 9 then 0
    else if stype <= 4 then stype
    else if stype == 5 then 6
    else if stype == 6 || stype == 7 then 8
    else if stype >= 12 then (stype - 12 - stype % 2) / 2
    else 0
  }

  predicate IsText(stype: nat) {
    stype >= 13 && stype % 2 == 1
  }

  /** The room of the reader's arrays of text columns. */
  const MAX_TEXTS: nat := 32

  /** The text columns of a record whose remaining header is `toff..hend` and values start at `voff`;
      at most `room` of them. None when the record does not parse. */
  function TextColumns(buf: seq<byte>, toff: nat, hend: nat, voff: nat, room: nat): (r: Option<seq<seq<byte>>>)
    decreases hend - toff
  {
    if toff >= hend || room == 0 then Some([])
    else match Varint(buf, toff)
      case None => None
      case Some((stype, adv)) =>
        var w := Size(stype);
        if voff + w > |buf| then None
        else
          var more := TextColumns(buf, toff + adv, hend, voff + w, if IsText(stype) then room - 1 else room);
          if more.None? then None
          else Some((if IsText(stype) then [buf[voff..voff + w]] else []) + more.value)
  }

  /** The text columns of the record in the cell at `coff`; None when it does not parse or spills over. */
  function CellColumns(buf: seq<byte>, coff: nat): Option<seq<seq<byte>>> {
    match Varint(buf, coff)
    case None => None
    case Some((payload, n1)) =>
      match Varint(buf, coff + n1)
      case None => None
      case Some((_, n2)) =>
        var rec := coff + n1 + n2;
        if payload == 0 || (rec + payload) % U64 > |buf| then None else RecordColumns(buf, rec)
  }

  /** The text columns of the record at `rec`. */
  function RecordColumns(buf: seq<byte>, rec: nat): Option<seq<seq<byte>>> {
    match Varint(buf, rec)
    case None => None
    case Some((hsize, n)) =>
      var hend := (rec + hsize) % U64;
      if hsize < n || hend > |buf| then None else TextColumns(buf, rec + n, hend, hend, MAX_TEXTS)
  }

  /** `appdb_read_cell` */
  function ReadCell(buf: seq<byte>, coff: nat, idsOnly: bool): Option<Entry> {
    match CellColumns(buf, coff)
    case None => None
    case Some(cols) => RowToEntry(cols, idsOnly)
  }

  function Joined(done: seq<seq<byte>>, r: Option<seq<seq<byte>>>): Option<seq<seq<byte>>> {
    if r.None? then None else Some(done + r.value)
  }

  /** The loop over the serial types. */
  method ReadTextColumns(buf: seq<byte>, toff0: nat, hend: nat, voff0: nat) returns (r: Option<seq<seq<byte>>>)
    ensures r == TextColumns(buf, toff0, hend, voff0, MAX_TEXTS)
  {
    hide Varint, Size, IsText;
    var toff: nat, voff: nat, vals: seq<seq<byte>> := toff0, voff0, [];
    ghost var all := TextColumns(buf, toff0, hend, voff0, MAX_TEXTS);
    assert all.Some? ==> [] + all.value == all.value;
    while toff < hend && |vals| < MAX_TEXTS
      invariant |vals| <= MAX_TEXTS
      invariant Joined(vals, TextColumns(buf, toff, hend, voff, MAX_TEXTS - |vals|)) == all
      decreases hend - toff
    {
      var t := ReadVarint(buf, toff);
      if t.None? { return None; }
      var (stype, adv) := t.value;
      VarintAdvances(buf, toff);
      var width := Size(stype);
      if voff + width > |buf| { return None; }
      ghost var more := TextColumns(buf, toff + adv, hend, voff + width,
                                    if IsText(stype) then MAX_TEXTS - |vals| - 1 else MAX_TEXTS - |vals|);
      if IsText(stype) {
        if more.Some? {
          Assoc(vals, [buf[voff..voff + width]], more.value);
        }
        vals := vals + [buf[voff..voff + width]];
      } else {
        assert more.Some? ==> [] + more.value == more.value;
      }
      toff, voff := toff + adv, voff + width;
    }
    assert vals + [] == vals;
    r := Some(vals);
  }

  lemma VarintAdvances(buf: seq<byte>, off: nat)
    ensures Varint(buf, off).Some? ==> Varint(buf, off).value.1 > 0
  {
  }

  /** `appdb_read_cell` as it runs. */
  method ReadCellAt(buf: seq<byte>, coff: nat, idsOnly: bool) returns (e: Option<Entry>)
    ensures e == ReadCell(buf, coff, idsOnly)
  {
    hide Varint, TextColumns, RowToEntry;
    var payload := ReadVarint(buf, coff);
    if payload.None? { return None; }
    var o := coff + payload.value.1;
    var rowid := ReadVarint(buf, o);
    if rowid.None? { return None; }
    var rec := o + rowid.value.1;
    if payload.value.0 == 0 || (rec + payload.value.0) % U64 > |buf| { return None; }
    var hsize := ReadVarint(buf, rec);
    if hsize.None? || hsize.value.0 < hsize.value.1 || (rec + hsize.value.0) % U64 > |buf| { return None; }
    var hend := (rec + hsize.value.0) % U64;
    var cols := ReadTextColumns(buf, rec + hsize.value.1, hend, hend);
    if cols.None? { return None; }
    e := RowToEntry(cols.value, idsOnly);
  }

  // ---- What an entry promises

  /** A title id, and a whole, unpadded, printable name of 2 to 255 bytes; no name only where ids alone
      were asked for. */
  ghost predicate GoodEntry(e: Entry, idsOnly: bool) {
    && IsTitleId(e.titleId)
    && ((idsOnly && e.name == []) || (2 <= |e.name| < 256 && CleanText(e.name) && e.name[|e.name| - 1] != 0x20))
  }

  lemma {:induction false} TrimmedIsClean(s: seq<byte>)
    requires CleanText(s)
    ensures CleanText(TrimSpaces(s))
    decreases |s|
  {
    if s != [] && s[|s| - 1] == 0x20 {
      assert s == s[..|s| - 1] + [0x20];
      CleanWithoutSpace(s[..|s| - 1]);
      TrimmedIsClean(s[..|s| - 1]);
    }
  }

  lemma {:induction false} FirstNameIsGood(cols: seq<seq<byte>>)
    ensures FirstName(cols).Some? ==>
              var n := FirstName(cols).value;
              2 <= |n| < 256 && CleanText(n) && n[|n| - 1] != 0x20
    decreases |cols|
  {
    if cols != [] {
      if MayBeName(cols[0]) {
        TrimmedIsClean(cols[0]);
      } else {
        FirstNameIsGood(cols[1..]);
      }
    }
  }

  lemma {:induction false} FirstTitleIdIsOne(cols: seq<seq<byte>>)
    ensures FirstTitleId(cols).Some? ==> IsTitleId(FirstTitleId(cols).value)
    decreases |cols|
  {
    if cols != [] {
      FirstTitleIdIsOne(cols[1..]);
    }
  }

  /** Every row, and so every cell, that yields an entry yields a good one. */
  lemma RowsAreGood(cols: seq<seq<byte>>, idsOnly: bool)
    ensures RowToEntry(cols, idsOnly).Some? ==> GoodEntry(RowToEntry(cols, idsOnly).value, idsOnly)
  {
    FirstNameIsGood(cols);
    FirstTitleIdIsOne(cols);
  }

  lemma CellsAreGood(buf: seq<byte>, coff: nat, idsOnly: bool)
    ensures ReadCell(buf, coff, idsOnly).Some? ==> GoodEntry(ReadCell(buf, coff, idsOnly).value, idsOnly)
  {
    var cols := CellColumns(buf, coff);
    if cols.Some? {
      RowsAreGood(cols.value, idsOnly);
    }
  }

  // ---- Pages

  function Be16(b: seq<byte>, o: nat): (v: nat)
    requires o + 2 <= |b|
    ensures v < 0x1_0000
  {
    var hi: int, lo: int := b[o], b[o + 1];
    hi * 256 + lo
  }

  predicate PowerOfTwo(n: nat) {
    n == 1 || (n > 1 && n % 2 == 0 && PowerOfTwo(n / 2))
  }

  const MAGIC: seq<byte> := [83, 81, 76, 105, 116, 101, 32, 102, 111, 114, 109, 97, 116, 32, 51, 0]

  /** The page size, or None when the buffer is not a database. */
  function PageSize(buf: seq<byte>): (r: Option<nat>)
    ensures r.Some? ==> r.value >= 512 && |buf| >= 100
  {
    if |buf| < 100 || buf[..16] != MAGIC then None
    else
      var raw := Be16(buf, 16);
      var size := if raw == 1 then 65536 else raw;
      if size < 512 || !PowerOfTwo(size) then None else Some(size)
  }

  /** How a cell at some offset decodes. */
  type Decoder = nat -> Option<Entry>

  function CellDecoder(buf: seq<byte>, idsOnly: bool): Decoder {
    (coff: nat) => ReadCell(buf, coff, idsOnly)
  }

  /** The entry of the cell whose pointer is at `ptr`, if it decodes. */
  function CellEntry(buf: seq<byte>, base: nat, size: nat, ptr: nat, decode: Decoder): Option<Entry>
    requires ptr + 2 <= |buf|
  {
    var rel := Be16(buf, ptr);
    if rel == 0 || rel >= size || base + rel >= |buf| then None else decode(base + rel)
  }

  /** The decodable cells of a page, for the `left` pointers from `ptr` on, in pointer order. */
  function CellEntries(buf: seq<byte>, base: nat, size: nat, ptr: nat, left: nat, decode: Decoder): seq<Entry>
    decreases left
  {
    if left == 0 || ptr + 2 > |buf| then []
    else
      var rest := CellEntries(buf, base, size, ptr + 2, left - 1, decode);
      match CellEntry(buf, base, size, ptr, decode)
      case None => rest
      case Some(e) => [e] + rest
  }

  function HeaderOffset(base: nat): nat {
    base + if base == 0 then 100 else 0
  }

  /** The entries of the page at `base`: none unless it is a leaf table page. */
  function PageEntries(buf: seq<byte>, base: nat, size: nat, decode: Decoder): seq<Entry>
    requires HeaderOffset(base) + 8 <= |buf|
  {
    var h := HeaderOffset(base);
    if buf[h] != 0x0D then [] else CellEntries(buf, base, size, h + 8, Be16(buf, h + 3), decode)
  }

  /** The entries of all whole pages from `base` on. */
  function AllEntries(buf: seq<byte>, base: nat, size: nat, decode: Decoder): seq<Entry>
    requires size >= 512
    decreases |buf| - base
  {
    if base + size > |buf| then []
    else PageEntries(buf, base, size, decode) + AllEntries(buf, base + size, size, decode)
  }

  // ---- One entry per title, at most `max`

  predicate HasId(es: seq<Entry>, id: seq<byte>) {
    exists k | 0 <= k < |es| :: es[k].titleId == id
  }

  /** The entries whose title id has not occurred before them. */
  function FirstPerTitle(es: seq<Entry>): (r: seq<Entry>)
    ensures |r| <= |es|
  {
    if es == [] then []
    else
      var n := |es| - 1;
      var r := FirstPerTitle(es[..n]);
      if HasId(es[..n], es[n].titleId) then r else r + [es[n]]
  }

  function Take(es: seq<Entry>, max: nat): seq<Entry> {
    if |es| <= max then es else es[..max]
  }

  /** The code's way: append unless full or already there. */
  function Keep(out: seq<Entry>, e: Entry, max: nat): seq<Entry> {
    if |out| >= max || HasId(out, e.titleId) then out else out + [e]
  }

  function KeepAll(out: seq<Entry>, es: seq<Entry>, max: nat): seq<Entry>
    decreases |es|
  {
    if es == [] then out else KeepAll(Keep(out, es[0], max), es[1..], max)
  }

  lemma {:induction false} SameIds(es: seq<Entry>, id: seq<byte>)
    ensures HasId(FirstPerTitle(es), id) <==> HasId(es, id)
    decreases |es|
  {
    if es != [] {
      var n := |es| - 1;
      SameIds(es[..n], id);
      SameIds(es[..n], es[n].titleId);
      HasIdLast(es[..n], es[n], id);
      HasIdLast(FirstPerTitle(es[..n]), es[n], id);
      assert es[..n] + [es[n]] == es;
    }
  }

  lemma HasIdLast(es: seq<Entry>, e: Entry, id: seq<byte>)
    ensures HasId(es + [e], id) <==> HasId(es, id) || e.titleId == id
  {
    if HasId(es, id) {
      var k :| 0 <= k < |es| && es[k].titleId == id;
      assert (es + [e])[k].titleId == id;
    }
    if e.titleId == id {
      assert (es + [e])[|es|].titleId == id;
    }
  }

  /** The running list is always the first `max` of the deduplication of what was seen. */
  lemma {:induction false} KeepAllIs(seen: seq<Entry>, es: seq<Entry>, max: nat)
    ensures KeepAll(Take(FirstPerTitle(seen), max), es, max) == Take(FirstPerTitle(seen + es), max)
    decreases |es|
  {
    if es == [] {
      assert seen + es == seen;
    } else {
      KeepOne(seen, es[0], max);
      KeepAllIs(seen + [es[0]], es[1..], max);
      ShiftHead(seen, es);
    }
  }

  lemma KeepOne(seen: seq<Entry>, e: Entry, max: nat)
    ensures Keep(Take(FirstPerTitle(seen), max), e, max) == Take(FirstPerTitle(seen + [e]), max)
  {
    var r := FirstPerTitle(seen);
    assert (seen + [e])[..|seen|] == seen;
    SameIds(seen, e.titleId);
    if |r| < max {
      assert Take(r, max) == r;
    } else {
      assert Take(r, max) == r[..max] == (r + [e])[..max];
    }
  }

  /** What the deduplication keeps, said without its recursion: no id twice, exactly the first entry of
      each id. */
  lemma {:induction false} FirstPerTitleMeans(es: seq<Entry>)
    ensures forall i, j | 0 <= i < j < |FirstPerTitle(es)| ::
              FirstPerTitle(es)[i].titleId != FirstPerTitle(es)[j].titleId
    ensures forall e :: e in FirstPerTitle(es) <==>
              exists i | 0 <= i < |es| :: es[i] == e && !HasId(es[..i], e.titleId)
    decreases |es|
  {
    if es != [] {
      var n := |es| - 1;
      var r := FirstPerTitle(es[..n]);
      FirstPerTitleMeans(es[..n]);
      SameIds(es[..n], es[n].titleId);
      forall e ensures (exists i | 0 <= i < |es| :: es[i] == e && !HasId(es[..i], e.titleId)) <==>
                         (e in r || (e == es[n] && !HasId(es[..n], e.titleId))) {
        FirstOccurrence(es, e);
      }
    }
  }

  lemma FirstOccurrence(es: seq<Entry>, e: Entry)
    requires es != []
    ensures var n := |es| - 1;
            (exists i | 0 <= i < |es| :: es[i] == e && !HasId(es[..i], e.titleId)) <==>
              (|| (exists i | 0 <= i < n :: es[..n][i] == e && !HasId(es[..n][..i], e.titleId))
               || (e == es[n] && !HasId(es[..n], e.titleId)))
  {
    var n := |es| - 1;
    forall i | 0 <= i < n ensures es[..n][..i] == es[..i] && es[..n][i] == es[i] {}
    if i :| 0 <= i < |es| && es[i] == e && !HasId(es[..i], e.titleId) {
      if i < n {
        assert es[..n][i] == e && !HasId(es[..n][..i], e.titleId);
      }
    }
    if i :| 0 <= i < n && es[..n][i] == e && !HasId(es[..n][..i], e.titleId) {
      assert es[i] == e && !HasId(es[..i], e.titleId);
    }
    if e == es[n] && !HasId(es[..n], e.titleId) {
      assert es[n] == e;
    }
  }

  // ---- The loops

  lemma {:induction false} KeepAllConcat(out: seq<Entry>, a: seq<Entry>, b: seq<Entry>, max: nat)
    ensures KeepAll(out, a + b, max) == KeepAll(KeepAll(out, a, max), b, max)
    decreases |a|
  {
    if a == [] {
      assert a + b == b;
    } else {
      assert (a + b)[1..] == a[1..] + b;
      KeepAllConcat(Keep(out, a[0], max), a[1..], b, max);
    }
  }

  lemma {:induction false} KeepAllFull(out: seq<Entry>, es: seq<Entry>, max: nat)
    requires |out| >= max
    ensures KeepAll(out, es, max) == out
    decreases |es|
  {
    if es != [] {
      KeepAllFull(out, es[1..], max);
    }
  }

  /** The search of the entries kept so far. */
  method IsDuplicate(out: seq<Entry>, id: seq<byte>) returns (dup: bool)
    ensures dup <==> HasId(out, id)
  {
    for k := 0 to |out|
      invariant forall j | 0 <= j < k :: out[j].titleId != id
    {
      if out[k].titleId == id { return true; }
    }
    return false;
  }

  /** The cell loop over one page. */
  method ScanPage(buf: seq<byte>, base: nat, size: nat, out0: seq<Entry>, max: nat, decode: Decoder)
    returns (out: seq<Entry>)
    requires HeaderOffset(base) + 8 <= |buf| && |out0| <= max
    ensures out == KeepAll(out0, PageEntries(buf, base, size, decode), max) && |out| <= max
  {
    hide KeepAll, CellEntries, CellEntry;
    out := out0;
    var h := HeaderOffset(base);
    if buf[h] != 0x0D {
      KeepNone(out, max);
      return;
    }
    var ncells, ptr, c := Be16(buf, h + 3), h + 8, 0;
    ghost var all := KeepAll(out, CellEntries(buf, base, size, ptr, ncells, decode), max);
    while c < ncells && |out| < max && ptr + 2 <= |buf|
      invariant c <= ncells && |out| <= max
      invariant KeepAll(out, CellEntries(buf, base, size, ptr, ncells - c, decode), max) == all
      decreases ncells - c
    {
      CellTurn(buf, base, size, ptr, ncells - c, decode, out, max);
      var e := CellEntry(buf, base, size, ptr, decode);
      if e.Some? {
        var dup := IsDuplicate(out, e.value.titleId);
        if !dup {
          out := out + [e.value];
        }
      }
      c, ptr := c + 1, ptr + 2;
    }
    CellsDone(buf, base, size, ptr, ncells - c, decode, out, max);
  }

  lemma KeepNone(out: seq<Entry>, max: nat)
    ensures KeepAll(out, [], max) == out
  {
  }

  /** One turn of the cell loop. */
  lemma CellTurn(buf: seq<byte>, base: nat, size: nat, ptr: nat, left: nat, decode: Decoder, out: seq<Entry>, max: nat)
    requires left > 0 && ptr + 2 <= |buf|
    ensures var e := CellEntry(buf, base, size, ptr, decode);
            KeepAll(out, CellEntries(buf, base, size, ptr, left, decode), max) ==
            KeepAll(if e.Some? then Keep(out, e.value, max) else out,
                    CellEntries(buf, base, size, ptr + 2, left - 1, decode), max)
  {
    var e := CellEntry(buf, base, size, ptr, decode);
    if e.Some? {
      KeepAllCons(out, e.value, CellEntries(buf, base, size, ptr + 2, left - 1, decode), max);
    }
  }

  lemma CellsDone(buf: seq<byte>, base: nat, size: nat, ptr: nat, left: nat, decode: Decoder, out: seq<Entry>, max: nat)
    requires left == 0 || ptr + 2 > |buf| || |out| >= max
    ensures KeepAll(out, CellEntries(buf, base, size, ptr, left, decode), max) == out
  {
    if |out| >= max {
      KeepAllFull(out, CellEntries(buf, base, size, ptr, left, decode), max);
    }
  }

  lemma KeepAllCons(out: seq<Entry>, e: Entry, es: seq<Entry>, max: nat)
    ensures KeepAll(out, [e] + es, max) == KeepAll(Keep(out, e, max), es, max)
  {
    assert ([e] + es)[1..] == es;
  }

  /** The page loop. */
  method ScanPages(buf: seq<byte>, size: nat, max: nat, decode: Decoder) returns (out: seq<Entry>)
    requires size >= 512
    ensures out == KeepAll([], AllEntries(buf, 0, size, decode), max)
  {
    hide KeepAll, AllEntries, PageEntries;
    out := [];
    var base: nat := 0;
    ghost var all := KeepAll(out, AllEntries(buf, base, size, decode), max);
    while base + size <= |buf| && |out| < max
      invariant |out| <= max && KeepAll(out, AllEntries(buf, base, size, decode), max) == all
      decreases |buf| - base
    {
      PageTurn(buf, base, size, decode, out, max);
      out := ScanPage(buf, base, size, out, max, decode);
      base := base + size;
    }
    PagesDone(buf, base, size, decode, out, max);
  }

  /** One turn of the page loop. */
  lemma PageTurn(buf: seq<byte>, base: nat, size: nat, decode: Decoder, out: seq<Entry>, max: nat)
    requires size >= 512 && base + size <= |buf|
    ensures KeepAll(out, AllEntries(buf, base, size, decode), max) ==
            KeepAll(KeepAll(out, PageEntries(buf, base, size, decode), max),
                    AllEntries(buf, base + size, size, decode), max)
  {
    hide KeepAll, PageEntries;
    KeepAllConcat(out, PageEntries(buf, base, size, decode), AllEntries(buf, base + size, size, decode), max);
  }

  lemma PagesDone(buf: seq<byte>, base: nat, size: nat, decode: Decoder, out: seq<Entry>, max: nat)
    requires size >= 512 && (base + size > |buf| || |out| >= max)
    ensures KeepAll(out, AllEntries(buf, base, size, decode), max) == out
  {
    if |out| >= max {
      KeepAllFull(out, AllEntries(buf, base, size, decode), max);
    }
  }

  lemma KeepAllFromNone(es: seq<Entry>, max: nat)
    ensures KeepAll([], es, max) == Take(FirstPerTitle(es), max)
  {
    KeepAllIs([], es, max);
    assert [] + es == es;
    assert Take(FirstPerTitle([]), max) == [];
  }

  /** `appdb_scan_entries_ex`: the first `max` of the keep-first-per-title deduplication of all decodable
      leaf cells, in page and pointer order; None when the buffer is not a database. */
  method ScanEntries(buf: seq<byte>, max: nat, idsOnly: bool) returns (r: Option<seq<Entry>>)
    ensures r == if max == 0 || PageSize(buf).None? then None
                 else Some(Take(FirstPerTitle(AllEntries(buf, 0, PageSize(buf).value, CellDecoder(buf, idsOnly))), max))
  {
    if max == 0 { return None; }
    var p := PageSize(buf);
    if p.None? { return None; }
    var out := ScanPages(buf, p.value, max, CellDecoder(buf, idsOnly));
    KeepAllFromNone(AllEntries(buf, 0, p.value, CellDecoder(buf, idsOnly)), max);
    r := Some(out);
  }

  // ---- Every entry returned is good

  ghost predicate AllGood(es: seq<Entry>, idsOnly: bool) {
    forall e | e in es :: GoodEntry(e, idsOnly)
  }

  ghost predicate GoodDecoder(decode: Decoder, idsOnly: bool) {
    forall c {:trigger decode(c)} :: decode(c).Some? ==> GoodEntry(decode(c).value, idsOnly)
  }

  lemma {:induction false} CellEntriesGood(buf: seq<byte>, base: nat, size: nat, ptr: nat, left: nat,
                                           decode: Decoder, idsOnly: bool)
    requires GoodDecoder(decode, idsOnly)
    ensures AllGood(CellEntries(buf, base, size, ptr, left, decode), idsOnly)
    decreases left
  {
    if left > 0 && ptr + 2 <= |buf| {
      CellEntriesGood(buf, base, size, ptr + 2, left - 1, decode, idsOnly);
    }
  }

  lemma {:induction false} AllEntriesGood(buf: seq<byte>, base: nat, size: nat, decode: Decoder, idsOnly: bool)
    requires size >= 512 && GoodDecoder(decode, idsOnly)
    ensures AllGood(AllEntries(buf, base, size, decode), idsOnly)
    decreases |buf| - base
  {
    if base + size <= |buf| {
      var h := HeaderOffset(base);
      CellEntriesGood(buf, base, size, h + 8, Be16(buf, h + 3), decode, idsOnly);
      AllEntriesGood(buf, base + size, size, decode, idsOnly);
    }
  }

  /** Every entry of a scan: a title id and a whole printable name, no title id twice. */
  lemma ScannedEntriesAreGood(buf: seq<byte>, size: nat, max: nat, idsOnly: bool)
    requires size >= 512
    ensures var out := Take(FirstPerTitle(AllEntries(buf, 0, size, CellDecoder(buf, idsOnly))), max);
            AllGood(out, idsOnly) && forall i, j | 0 <= i < j < |out| :: out[i].titleId != out[j].titleId
  {
    forall c: nat
      ensures CellDecoder(buf, idsOnly)(c).Some? ==> GoodEntry(CellDecoder(buf, idsOnly)(c).value, idsOnly)
    {
      CellsAreGood(buf, c, idsOnly);
    }
    AllEntriesGood(buf, 0, size, CellDecoder(buf, idsOnly), idsOnly);
    TakenAreGood(AllEntries(buf, 0, size, CellDecoder(buf, idsOnly)), max, idsOnly);
  }

  lemma TakenAreGood(es: seq<Entry>, max: nat, idsOnly: bool)
    requires AllGood(es, idsOnly)
    ensures var out := Take(FirstPerTitle(es), max);
            AllGood(out, idsOnly) && forall i, j | 0 <= i < j < |out| :: out[i].titleId != out[j].titleId
  {
    FirstPerTitleMeans(es);
    var out := Take(FirstPerTitle(es), max);
    forall e | e in out ensures GoodEntry(e, idsOnly) {
      assert e in FirstPerTitle(es);
      var i :| 0 <= i < |es| && es[i] == e;
    }
  }
}
