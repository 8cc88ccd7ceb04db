/** Fake-signing an ELF: the SELF that has a table entry for each chosen segment and the ELF itself as its
    plaintext payload, the shape payload/include/elf_param.h unwraps. */
module ElfWrap {
  import opened Bytes
  import opened ElfParam

  // ---- Little-endian writes

  lemma Reads16(n: nat)
    requires n < 0x1_0000
    ensures Rd16(LE(n, 2), 0) == n
  {
    assert LE(n, 2) == [n % 256] + LE(n / 256, 1);
  }

  lemma Reads32(n: nat)
    requires n < 0x1_0000_0000
    ensures Rd32(LE(n, 4), 0) == n
  {
    var n1 := n / 256;
    var n2 := n1 / 256;
    var b := LE(n, 4);
    assert b == [n % 256] + ([n1 % 256] + ([n2 % 256] + LE(n2 / 256, 1)));
    assert b[0] == n % 256 && b[1] == n1 % 256 && b[2] == n2 % 256 && b[3] == n2 / 256;
  }

  lemma StepLE(lo: nat, x: nat, w: nat)
    ensures LE(lo + 256 * x, w + 1) == [lo % 256] + LE(lo / 256 + x, w)
  {
    assert (lo + 256 * x) % 256 == lo % 256 && (lo + 256 * x) / 256 == lo / 256 + x;
  }

  /** The bytes of the low half, then those of the high half. */
  lemma HalvesOf64(lo: nat, hi: nat)
    requires lo < 0x1_0000_0000
    ensures LE(lo + 0x1_0000_0000 * hi, 8) == LE(lo, 4) + LE(hi, 4)
  {
    var lo1 := lo / 256;
    var lo2 := lo1 / 256;
    var lo3 := lo2 / 256;
    LowHalf(lo, lo1, lo2, lo3, 0, 0);
    LowHalf(lo, lo1, lo2, lo3, hi, 4);
    assert LE(0, 0) == [];
    Prefixed([lo % 256], [lo1 % 256], [lo2 % 256], [lo3 % 256], LE(hi, 4));
  }

  lemma LowHalf(lo: nat, lo1: nat, lo2: nat, lo3: nat, hi: nat, w: nat)
    requires lo1 == lo / 256 && lo2 == lo1 / 256 && lo3 == lo2 / 256 && lo3 < 256
    ensures LE(lo + 0x1_0000_0000 * hi, 4 + w)
            == [lo % 256] + ([lo1 % 256] + ([lo2 % 256] + ([lo3 % 256] + LE(hi, w))))
  {
    hide LE;
    StepLE(lo, 0x100_0000 * hi, 3 + w);
    StepLE(lo1, 0x1_0000 * hi, 2 + w);
    StepLE(lo2, 0x100 * hi, 1 + w);
    StepLE(lo3, hi, w);
  }

  lemma Prefixed<T>(a: seq<T>, b: seq<T>, c: seq<T>, d: seq<T>, e: seq<T>)
    ensures a + (b + (c + (d + e))) == (a + (b + (c + (d + [])))) + e
  {
  }

  lemma Reads64Back(n: nat)
    requires n < U64
    ensures Rd64(LE(n, 8), 0) == n
  {
    hide LE;
    var lo, hi := LE(n % 0x1_0000_0000, 4), LE(n / 0x1_0000_0000, 4);
    HalvesOf64(n % 0x1_0000_0000, n / 0x1_0000_0000);
    Reads32(n % 0x1_0000_0000);
    Reads32(n / 0x1_0000_0000);
    var b := lo + hi;
    assert b[0..4] == lo[0..4] && b[4..8] == hi[0..4];
    SameReads(b, 0, lo, 0, 4, 0);
    SameReads(b, 4, hi, 0, 4, 0);
  }

  function Zeros(n: nat): (b: seq<byte>)
    ensures |b| == n
  {
    seq(n, _ => 0)
  }

  // ---- The wrapper

  predicate Writable(e: Entry) {
    e.id < 0x1000 && e.off < U64 && e.size < U64
  }

  function EntryBytes(e: Entry): (b: seq<byte>)
    requires Writable(e)
    ensures |b| == 0x20
  {
    LE(e.id * 0x10_0000, 8) + LE(e.off, 8) + LE(e.size, 8) + Zeros(8)
  }

  ghost predicate AllWritable(es: seq<Entry>) {
    forall k | 0 <= k < |es| :: Writable(es[k])
  }

  function Table(es: seq<Entry>): (b: seq<byte>)
    requires AllWritable(es)
    ensures |b| == |es| * 0x20
  {
    if es == [] then [] else EntryBytes(es[0]) + Table(es[1..])
  }

  /** The wrapper's first word tells the console it was made for. */
  datatype Console = Ps4 | Ps5

  function SelfMagic(c: Console): nat {
    if c.Ps4? then 0x1D3D154F else 0xEEF51454
  }

  function SelfHeader(c: Console, entries: nat): (b: seq<byte>)
    requires entries < 0x1_0000
    ensures |b| == 0x20
  {
    LE(SelfMagic(c), 4) + Zeros(0x14) + LE(entries, 2) + Zeros(6)
  }

  function Base(entries: nat): nat {
    0x20 + entries * 0x20
  }

  function WrapWith(c: Console, es: seq<Entry>, elf: seq<byte>): (b: seq<byte>)
    requires AllWritable(es) && |es| < 0x1_0000
    ensures |b| == Base(|es|) + |elf|
  {
    SelfHeader(c, |es|) + Table(es) + elf
  }

  /** The entries for the segments `ids`, each pointing into the payload at `base`. */
  function EntriesFor(img: Image, ids: seq<nat>, base: nat): (es: seq<Entry>)
    requires forall k | 0 <= k < |ids| :: ids[k] < |img.segs|
    ensures |es| == |ids|
  {
    seq(|ids|, k requires 0 <= k < |ids| =>
      Entry(ids[k], base + img.segs[ids[k]].off, img.segs[ids[k]].size))
  }

  /** Entries that may name a segment but do not have its size: its digests, say. */
  ghost predicate Others(img: Image, es: seq<Entry>) {
    && AllWritable(es)
    && forall k | 0 <= k < |es| && es[k].id < |img.segs| :: es[k].size != img.segs[es[k].id].size
  }

  /** Such entries, and then those for the segments. */
  function TableFor(img: Image, others: seq<Entry>, ids: seq<nat>): (es: seq<Entry>)
    requires forall k | 0 <= k < |ids| :: ids[k] < |img.segs|
    ensures |es| == |others| + |ids|
  {
    others + EntriesFor(img, ids, Base(|others| + |ids|))
  }

  // ---- Reading the wrapper back

  lemma ReadsHeader(c: Console, n: nat)
    requires n < 0x1_0000
    ensures Rd32(SelfHeader(c, n), 0) == SelfMagic(c) && Rd16(SelfHeader(c, n), 0x18) == n
  {
    hide LE;
    var b, magic, count := SelfHeader(c, n), LE(SelfMagic(c), 4), LE(n, 2);
    Reads32(SelfMagic(c));
    Reads16(n);
    assert b[0..4] == magic[0..4];
    SameReads(b, 0, magic, 0, 4, 0);
    assert b[0x18..0x1A] == count[0..2];
    SameReads(b, 0x18, count, 0, 2, 0);
  }

  lemma ReadsEntry(e: Entry)
    requires Writable(e)
    ensures var b := EntryBytes(e);
            Entry(Rd64(b, 0) / 0x10_0000 % 0x1000, Rd64(b, 0x08), Rd64(b, 0x10)) == e
  {
    hide Rd64, LE;
    var b, x, y, z := EntryBytes(e), LE(e.id * 0x10_0000, 8), LE(e.off, 8), LE(e.size, 8);
    Reads64Back(e.id * 0x10_0000);
    Reads64Back(e.off);
    Reads64Back(e.size);
    ThreeParts(x, y, z + Zeros(8));
    assert b == x + y + (z + Zeros(8));
    ThreeParts([], z, Zeros(8));
    Reads64(b, 0, x);
    Reads64(b, 8, y);
    assert b[16..24] == z;
    Reads64(b, 16, z);
    assert e.id * 0x10_0000 / 0x10_0000 == e.id;
  }

  lemma ThreeParts<T>(a: seq<T>, b: seq<T>, c: seq<T>)
    ensures var s := a + b + c;
            s[0..|a|] == a && s[|a|..|a| + |b|] == b && s[|a| + |b|..|s|] == c
  {
  }

  lemma Reads64(b: seq<byte>, at: nat, part: seq<byte>)
    requires |part| == 8 && at + 8 <= |b| && b[at..at + 8] == part
    ensures Rd64(b, at) == Rd64(part, 0)
  {
    assert part[0..8] == part;
    SameReads(b, at, part, 0, 8, 0);
  }

  lemma {:induction false} TableHolds(es: seq<Entry>, k: nat)
    requires AllWritable(es) && k < |es|
    ensures SameBytes(Table(es), k * 0x20, EntryBytes(es[k]), 0, 0x20)
    decreases k
  {
    hide EntryBytes;
    var first, rest := EntryBytes(es[0]), Table(es[1..]);
    if k == 0 {
      assert (first + rest)[0..0x20] == first[0..0x20];
    } else {
      TableHolds(es[1..], k - 1);
      var at := (k - 1) * 0x20;
      assert (first + rest)[at + 0x20..at + 0x40] == rest[at..at + 0x20];
    }
  }

  /** The three parts of a wrapper, as the readers see them. */
  lemma WrapParts(c: Console, es: seq<Entry>, elf: seq<byte>)
    requires AllWritable(es) && |es| < 0x1_0000
    ensures var self := WrapWith(c, es, elf);
            && SameBytes(self, 0, SelfHeader(c, |es|), 0, 0x20)
            && SameBytes(self, 0x20, Table(es), 0, |es| * 0x20)
            && SameBytes(self, Base(|es|), elf, 0, |elf|)
  {
    hide SelfHeader, Table, SameBytes;
    PartsSame(SelfHeader(c, |es|), Table(es), elf);
  }

  lemma PartsSame(a: seq<byte>, b: seq<byte>, c: seq<byte>)
    ensures var s := a + b + c;
            && SameBytes(s, 0, a, 0, |a|) && SameBytes(s, |a|, b, 0, |b|)
            && SameBytes(s, |a| + |b|, c, 0, |c|)
  {
    ThreeParts(a, b, c);
    assert a[0..|a|] == a && b[0..|b|] == b && c[0..|c|] == c;
  }

  lemma SumIs(a: nat, b: nat)
    ensures a + b < U64 ==> Sum(a, b) == a + b
  {
  }

  /** A bare ELF's header, for the same ELF at `at`. */
  function Moved(h: Header, at: nat): Header {
    h.(base := at, table := at + h.table)
  }

  /** A wrapper parses to the ELF's own header, moved behind the table. */
  lemma ParsesWrapped(c: Console, es: seq<Entry>, elf: seq<byte>)
    requires AllWritable(es) && |es| < 0x1_0000
    requires Base(|es|) + |elf| < I64 && ParseHeader(elf).Good? && ParseHeader(elf).header.base == 0
    ensures ParseHeader(WrapWith(c, es, elf)) == Good(Moved(ParseHeader(elf).header, Base(|es|)))
    ensures Rd16(WrapWith(c, es, elf), 0x18) == |es|
  {
    hide WrapWith, Table, SelfHeader, Rd16, Rd32, Rd64, Sum;
    var phoff := Rd64(elf, 0x20);
    Rd64Bound(elf, 0x20);
    SumIs(0, phoff);
    SumIs(Base(|es|), phoff);
    var self, at := WrapWith(c, es, elf), Base(|es|);
    WrapParts(c, es, elf);
    ReadsHeader(c, |es|);
    SameReads(self, 0, SelfHeader(c, |es|), 0, 0x20, 0);
    SameReads(self, 0, SelfHeader(c, |es|), 0, 0x20, 0x18);
    SamePart(self, at, elf, 0, |elf|, 0, 4);
    SameReads(self, at, elf, 0, |elf|, 0x20);
    SameReads(self, at, elf, 0, |elf|, 0x36);
    SameReads(self, at, elf, 0, |elf|, 0x38);
  }

  lemma WrappedSegment(c: Console, es: seq<Entry>, elf: seq<byte>, i: nat)
    requires AllWritable(es) && |es| < 0x1_0000 && ParseHeader(elf).Good? && ParseHeader(elf).header.base == 0
    requires ParseHeader(WrapWith(c, es, elf)) == Good(Moved(ParseHeader(elf).header, Base(|es|)))
    requires i < ParseHeader(elf).header.num
    ensures var h := ParseHeader(elf).header;
            SegmentAt(WrapWith(c, es, elf), Moved(h, Base(|es|)), i) == SegmentAt(elf, h, i)
  {
    hide WrapWith, ParseHeader, SameBytes, Rd16, Rd32, Rd64;
    var self, h, at := WrapWith(c, es, elf), ParseHeader(elf).header, Base(|es|);
    var o := Ph(elf, h, i);
    WrapParts(c, es, elf);
    SameReads(self, at, elf, 0, |elf|, o);
    SameReads(self, at, elf, 0, |elf|, o + 0x08);
    SameReads(self, at, elf, 0, |elf|, o + 0x20);
    assert Ph(self, Moved(h, at), i) == at + o;
  }

  lemma SameTrans(a: seq<byte>, i: nat, b: seq<byte>, j: nat, c: seq<byte>, k: nat, n: nat)
    requires SameBytes(a, i, b, j, n) && SameBytes(b, j, c, k, n)
    ensures SameBytes(a, i, c, k, n)
  {
  }

  lemma WrappedEntry(c: Console, es: seq<Entry>, elf: seq<byte>, k: nat)
    requires AllWritable(es) && |es| < 0x1_0000 && ParseHeader(elf).Good? && ParseHeader(elf).header.base == 0
    requires ParseHeader(WrapWith(c, es, elf)) == Good(Moved(ParseHeader(elf).header, Base(|es|)))
    requires Rd16(WrapWith(c, es, elf), 0x18) == |es| && k < |es|
    ensures EntryAt(WrapWith(c, es, elf), ParseHeader(WrapWith(c, es, elf)).header, k) == es[k]
  {
    hide WrapWith, ParseHeader, Table, SameBytes, Rd16, Rd32, Rd64;
    WrapParts(c, es, elf);
    TableReads(WrapWith(c, es, elf), es, k);
  }

  /** An entry of the table, read at its place. */
  lemma TableReads(self: seq<byte>, es: seq<Entry>, k: nat)
    requires AllWritable(es) && k < |es| && SameBytes(self, 0x20, Table(es), 0, |es| * 0x20)
    ensures var o := 0x20 + k * 0x20;
            && o + 0x20 <= |self|
            && Entry(Rd64(self, o) / 0x10_0000 % 0x1000, Rd64(self, o + 0x08), Rd64(self, o + 0x10)) == es[k]
  {
    hide Table, EntryBytes, Rd64;
    var o := k * 0x20;
    TableHolds(es, k);
    SamePart(self, 0x20, Table(es), 0, |es| * 0x20, o, 0x20);
    SameTrans(self, 0x20 + o, Table(es), o, EntryBytes(es[k]), 0, 0x20);
    SameReads(self, 0x20 + o, EntryBytes(es[k]), 0, 0x20, 0);
    SameReads(self, 0x20 + o, EntryBytes(es[k]), 0, 0x20, 0x08);
    SameReads(self, 0x20 + o, EntryBytes(es[k]), 0, 0x20, 0x10);
    ReadsEntry(es[k]);
  }

  lemma WrappedImage(c: Console, es: seq<Entry>, elf: seq<byte>)
    requires AllWritable(es) && |es| < 0x1_0000
    requires Base(|es|) + |elf| < I64 && ParseHeader(elf).Good? && ParseHeader(elf).header.base == 0
    ensures ParseHeader(WrapWith(c, es, elf)).Good?
    ensures ReadImage(WrapWith(c, es, elf), ParseHeader(WrapWith(c, es, elf)).header)
            == Image(true, ReadImage(elf, ParseHeader(elf).header).segs, es)
  {
    var self, h := WrapWith(c, es, elf), ParseHeader(elf).header;
    ParsesWrapped(c, es, elf);
    var h' := ParseHeader(self).header;
    var w, b := ReadImage(self, h'), ReadImage(elf, h);
    forall i | 0 <= i < h.num ensures w.segs[i] == b.segs[i] {
      WrappedSegment(c, es, elf, i);
    }
    forall k | 0 <= k < |es| ensures w.entries[k] == es[k] {
      WrappedEntry(c, es, elf, k);
    }
    assert w.segs == b.segs && w.entries == es;
  }

  // ---- The theorem

  /** The segments chosen for the table lie in the ELF, and with them every parameter segment is there,
      itself or inside a chosen load segment. */
  ghost predicate Choice(elf: seq<byte>, img: Image, others: seq<Entry>, ids: seq<nat>) {
    && |others| + |ids| < 0x1_0000 && Base(|others| + |ids|) + |elf| < I64 && Others(img, others)
    && (forall k | 0 <= k < |ids| :: ids[k] < |img.segs| && ids[k] < 0x1000
                                      && img.segs[ids[k]].off + img.segs[ids[k]].size <= |elf|)
    && (forall i | 0 <= i < |img.segs| && Candidate(img.segs[i]) ::
          i in ids || exists l | l in ids :: Spans(img.segs[l], img.segs[i].off, img.segs[i].size))
  }

  function Wrap(c: Console, elf: seq<byte>, img: Image, others: seq<Entry>, ids: seq<nat>): seq<byte>
    requires Choice(elf, img, others, ids)
  {
    EntriesWritable(elf, img, others, ids);
    WrapWith(c, TableFor(img, others, ids), elf)
  }

  /** Wrapping a bare ELF for either console, whatever segments are chosen for the table and whatever entries of
      other sizes stand before them, keeps every SDK site: the same ones, in the same order, with the same words. */
  lemma WrappingKeepsSites(c: Console, elf: seq<byte>, others: seq<Entry>, ids: seq<nat>, max: nat)
    requires ParseHeader(elf).Good? && ParseHeader(elf).header.base == 0 && max > 0
    requires Choice(elf, ReadImage(elf, ParseHeader(elf).header), others, ids)
    ensures var self := Wrap(c, elf, ReadImage(elf, ParseHeader(elf).header), others, ids);
            var s, s' := FindSites(self, max), FindSites(elf, max);
            && s.Sites? && s'.Sites? && s.status == s'.status
            && SameSites(self, s.sites, elf, s'.sites)
  {
    var b := ReadImage(elf, ParseHeader(elf).header);
    var es := TableFor(b, others, ids);
    EntriesWritable(elf, b, others, ids);
    var self := WrapWith(c, es, elf);
    WrappedImage(c, es, elf);
    WrapParts(c, es, elf);
    WrapIsFaithful(self, elf, b, others, ids);
    WrapCovers(elf, b, others, ids);
    SelfSitesAreElfSites(self, elf, max);
  }

  lemma EntriesWritable(elf: seq<byte>, b: Image, others: seq<Entry>, ids: seq<nat>)
    requires Choice(elf, b, others, ids)
    ensures AllWritable(TableFor(b, others, ids))
  {
    var es, base := TableFor(b, others, ids), Base(|others| + |ids|);
    forall k | 0 <= k < |es| ensures Writable(es[k]) {
      if k >= |others| {
        var i := ids[k - |others|];
        assert es[k] == Entry(i, base + b.segs[i].off, b.segs[i].size);
      } else {
        assert es[k] == others[k];
      }
    }
  }

  lemma WrapIsFaithful(self: seq<byte>, elf: seq<byte>, b: Image, others: seq<Entry>, ids: seq<nat>)
    requires Choice(elf, b, others, ids) && SameBytes(self, Base(|others| + |ids|), elf, 0, |elf|)
    ensures Faithful(self, Image(true, b.segs, TableFor(b, others, ids)), elf)
  {
    var es := TableFor(b, others, ids);
    hide SameBytes, Choice, TableFor;
    forall e, j | 0 <= e < |es| && 0 <= j < |b.segs| && Holds(es[e], j, b.segs[j].size)
      ensures SameBytes(self, es[e].off, elf, b.segs[j].off, b.segs[j].size)
    {
      HeldIsThere(self, elf, b, others, ids, e, j);
    }
  }

  lemma HeldIsThere(self: seq<byte>, elf: seq<byte>, b: Image, others: seq<Entry>, ids: seq<nat>, e: nat, j: nat)
    requires Choice(elf, b, others, ids) && SameBytes(self, Base(|others| + |ids|), elf, 0, |elf|)
    requires var es := TableFor(b, others, ids);
             e < |es| && j < |b.segs| && Holds(es[e], j, b.segs[j].size)
    ensures var es := TableFor(b, others, ids);
            SameBytes(self, es[e].off, elf, b.segs[j].off, b.segs[j].size)
  {
    hide TableFor, SameBytes, AllWritable;
    OthersDoNotHold(b, others, ids);
    EntryIsFaithful(self, elf, b, others, ids, e - |others|);
  }

  lemma OthersDoNotHold(b: Image, others: seq<Entry>, ids: seq<nat>)
    requires Others(b, others) && forall k | 0 <= k < |ids| :: ids[k] < |b.segs|
    ensures forall e, j | 0 <= e < |others| && 0 <= j < |b.segs| ::
              !Holds(TableFor(b, others, ids)[e], j, b.segs[j].size)
  {
    assert forall e | 0 <= e < |others| :: TableFor(b, others, ids)[e] == others[e];
  }

  lemma EntryIsFaithful(self: seq<byte>, elf: seq<byte>, b: Image, others: seq<Entry>, ids: seq<nat>, e: nat)
    requires Choice(elf, b, others, ids) && e < |ids| && SameBytes(self, Base(|others| + |ids|), elf, 0, |elf|)
    ensures var entry := TableFor(b, others, ids)[|others| + e];
            entry.id < |b.segs| && SameBytes(self, entry.off, elf, b.segs[entry.id].off, b.segs[entry.id].size)
  {
    hide SameBytes;
    var seg := b.segs[ids[e]];
    assert seg.off + seg.size <= |elf|;
    SamePart(self, Base(|others| + |ids|), elf, 0, |elf|, seg.off, seg.size);
  }

  lemma WrapCovers(elf: seq<byte>, b: Image, others: seq<Entry>, ids: seq<nat>)
    requires Choice(elf, b, others, ids)
    ensures AllCovered(Image(true, b.segs, TableFor(b, others, ids)))
  {
    var w := Image(true, b.segs, TableFor(b, others, ids));
    forall i | 0 <= i < |w.segs| && Candidate(w.segs[i]) ensures Covered(w, i) {
      if i in ids {
        ChosenHasEntry(w, others, ids, i);
      } else {
        var l :| l in ids && Spans(b.segs[l], b.segs[i].off, b.segs[i].size);
        ChosenHasEntry(w, others, ids, l);
      }
    }
  }

  lemma ChosenHasEntry(w: Image, others: seq<Entry>, ids: seq<nat>, i: nat)
    requires (forall k | 0 <= k < |ids| :: ids[k] < |w.segs|) && w.entries == TableFor(w, others, ids) && i in ids
    ensures i < |w.segs| && HasEntry(w, i)
  {
    var k :| 0 <= k < |ids| && ids[k] == i;
    assert Holds(w.entries[|others| + k], i, w.segs[i].size);
  }
}
