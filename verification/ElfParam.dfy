/** Finding a title's SDK-version words in an ELF, bare or wrapped in a fake-signed SELF
    (payload/include/elf_param.h). Sums of header fields are taken in 64 bits, as the code takes them. */
module ElfParam {
  import opened Bytes
  import opened Wrappers

  const PT_LOAD: nat := 1
  const PT_SCE_PROCPARAM: nat := 0x61000001
  const PT_SCE_MODULE_PARAM: nat := 0x61000002
  const PROCESS_PARAM_MAGIC: nat := 0x4942524F
  const MODULE_PARAM_MAGIC: nat := 0x3C13F4BF
  const SELF_MAGIC_PS4: nat := 0x1D3D154F
  const SELF_MAGIC_PS5: nat := 0xEEF51454
  const ELF_MAGIC: seq<byte> := [0x7F, 69, 76, 70]

  const I64: int := 0x8000_0000_0000_0000

  /** A 64-bit sum. */
  function Sum(a: nat, b: nat): nat {
    (a + b) % U64
  }

  // ---- Little-endian reads

  function At(b: seq<byte>, o: nat): (v: int)
    requires o < |b|
    ensures 0 <= v < 0x100
  {
    b[o]
  }

  function Rd16(b: seq<byte>, o: nat): (v: nat)
    requires o + 2 <= |b|
    ensures v < 0x1_0000
  {
    At(b, o) + At(b, o + 1) * 0x100
  }

  function Rd32(b: seq<byte>, o: nat): nat
    requires o + 4 <= |b|
  {
    At(b, o) + At(b, o + 1) * 0x100 + At(b, o + 2) * 0x1_0000 + At(b, o + 3) * 0x100_0000
  }

  function Rd64(b: seq<byte>, o: nat): nat
    requires o + 8 <= |b|
  {
    Rd32(b, o) + Rd32(b, o + 4) * 0x1_0000_0000
  }

  /** `n` bytes of `a` at `i` are those of `b` at `j`. */
  ghost predicate SameBytes(a: seq<byte>, i: nat, b: seq<byte>, j: nat, n: nat) {
    i + n <= |a| && j + n <= |b| && a[i..i + n] == b[j..j + n]
  }

  lemma SameReads(a: seq<byte>, i: nat, b: seq<byte>, j: nat, n: nat, k: nat)
    requires SameBytes(a, i, b, j, n)
    ensures k + 2 <= n ==> Rd16(a, i + k) == Rd16(b, j + k)
    ensures k + 4 <= n ==> Rd32(a, i + k) == Rd32(b, j + k)
    ensures k + 8 <= n ==> Rd64(a, i + k) == Rd64(b, j + k)
  {
    if k + 2 <= n { SameByte(a, i, b, j, n, k); SameByte(a, i, b, j, n, k + 1); }
    if k + 4 <= n { SameByte(a, i, b, j, n, k + 2); SameByte(a, i, b, j, n, k + 3); }
    if k + 8 <= n {
      SameByte(a, i, b, j, n, k + 4); SameByte(a, i, b, j, n, k + 5);
      SameByte(a, i, b, j, n, k + 6); SameByte(a, i, b, j, n, k + 7);
    }
  }

  lemma SameByte(a: seq<byte>, i: nat, b: seq<byte>, j: nat, n: nat, k: nat)
    requires SameBytes(a, i, b, j, n) && k < n
    ensures a[i + k] == b[j + k]
  {
    assert a[i..i + n][k] == a[i + k] && b[j..j + n][k] == b[j + k];
  }

  lemma SamePart(a: seq<byte>, i: nat, b: seq<byte>, j: nat, n: nat, d: nat, m: nat)
    requires SameBytes(a, i, b, j, n) && d + m <= n
    ensures SameBytes(a, i + d, b, j + d, m)
  {
    SliceOfSlice(a, i, i + n, d, d + m);
    SliceOfSlice(b, j, j + n, d, d + m);
  }

  // ---- Headers

  predicate MagicAt(buf: seq<byte>, o: nat) {
    o + 4 <= |buf| && buf[o..o + 4] == ELF_MAGIC
  }

  /** `elf_self_payload_offset`: 0 for a bare file, the ELF's offset in a readable wrapper, None for a
      wrapper with nothing readable in it. */
  function PayloadOffset(buf: seq<byte>): (r: Option<nat>)
    ensures r.Some? && r.value > 0 ==> |buf| >= 0x22 && r.value == 0x20 + Rd16(buf, 0x18) * 0x20
                                       && MagicAt(buf, r.value)
  {
    if |buf| < 4 || (Rd32(buf, 0) != SELF_MAGIC_PS4 && Rd32(buf, 0) != SELF_MAGIC_PS5) then Some(0)
    else if |buf| < 0x22 then None
    else
      var off := 0x20 + Rd16(buf, 0x18) * 0x20;
      if off + 4 > |buf| || buf[off..off + 4] != ELF_MAGIC then None else Some(off)
  }

  /** Where the ELF and its program headers are in the file. */
  datatype Header = Header(base: nat, table: nat, entsize: nat, num: nat)

  function TableSize(h: Header): nat {
    h.entsize * h.num
  }

  /** The header table lies inside the file, and the wrapper's own table before the ELF. */
  ghost predicate ValidHeader(buf: seq<byte>, h: Header) {
    && h.entsize >= 0x28
    && h.table + TableSize(h) <= |buf|
    && (h.base > 0 ==> |buf| >= 0x22 && h.base == 0x20 + Rd16(buf, 0x18) * 0x20 && h.base <= |buf|)
  }

  datatype Status = NotElf | SignedSelf | Malformed | NoParams | Fine

  /** `Wild`: the header table was accepted only because its end wrapped, and is read outside the file. */
  datatype Parsed = Bad(status: Status) | Wild | Good(header: Header)

  /** A table whose end wraps starts before the ELF: still in the file when the wrapper is long enough. */
  function ParseHeader(buf: seq<byte>): (p: Parsed)
    ensures p.Good? ==> ValidHeader(buf, p.header) && p.header.base + 0x40 <= |buf|
                        && PayloadOffset(buf) == Some(p.header.base)
  {
    match PayloadOffset(buf)
    case None => Bad(SignedSelf)
    case Some(base) =>
      if |buf| < base || |buf| - base < 0x40 || buf[base..base + 4] != ELF_MAGIC then Bad(NotElf)
      else
        var phoff := Rd64(buf, base + 0x20);
        var h := Header(base, Sum(base, phoff), Rd16(buf, base + 0x36), Rd16(buf, base + 0x38));
        if h.entsize < 0x28 || phoff == 0 || Sum(phoff, TableSize(h)) > |buf| - base then Bad(Malformed)
        else if h.table + TableSize(h) > |buf| then Wild
        else Good(h)
  }

  /** The table is accepted and read outside the file if and only if its end wraps, and the wrapper in front
      of the ELF is too short to have its start. */
  lemma WildIff(buf: seq<byte>)
    requires |buf| < I64
    ensures ParseHeader(buf).Wild? <==>
              && PayloadOffset(buf).Some?
              && (var base := PayloadOffset(buf).value;
                  && base + 0x40 <= |buf| && buf[base..base + 4] == ELF_MAGIC
                  && (var phoff, entsize := Rd64(buf, base + 0x20), Rd16(buf, base + 0x36);
                      var size := entsize * Rd16(buf, base + 0x38);
                      entsize >= 0x28 && U64 <= phoff + size <= U64 + (|buf| - base) && U64 - phoff > base))
  {
    hide PayloadOffset, Rd16, Rd32, Rd64, Sum;
    if PayloadOffset(buf).Some? && PayloadOffset(buf).value + 0x40 <= |buf| {
      var base := PayloadOffset(buf).value;
      var phoff, entsize, num := Rd64(buf, base + 0x20), Rd16(buf, base + 0x36), Rd16(buf, base + 0x38);
      TableBound(entsize, num);
      Rd64Bound(buf, base + 0x20);
      WildSums(base, phoff, entsize * num, |buf|);
    }
  }

  lemma WildSums(base: nat, phoff: nat, size: nat, len: nat)
    requires base <= len < I64 && phoff < U64 && size <= 0xFFFF * 0xFFFF
    ensures Sum(phoff, size) <= len - base && Sum(base, phoff) + size > len <==>
              U64 <= phoff + size <= U64 + (len - base) && U64 - phoff > base
  {
  }

  lemma Rd64Bound(b: seq<byte>, o: nat)
    requires o + 8 <= |b|
    ensures Rd64(b, o) < U64
  {
  }

  lemma {:induction false} TableBound(size: nat, n: nat)
    requires size < 0x1_0000 && n < 0x1_0000
    ensures size * n <= 0xFFFF * n
    decreases n
  {
    if n > 0 {
      TableBound(size, n - 1);
      assert size * n == size * (n - 1) + size;
    }
  }

  /** The file offset of program header `i`. */
  function Ph(buf: seq<byte>, h: Header, i: nat): (o: nat)
    requires ValidHeader(buf, h) && i < h.num
    ensures o + 0x28 <= |buf| && o + 0x28 <= h.table + TableSize(h) && h.table <= o
  {
    MulStep(h.entsize, i, h.num);
    h.table + i * h.entsize
  }

  lemma {:induction false} MulStep(size: nat, i: nat, n: nat)
    requires i < n
    ensures i * size + size <= size * n
    decreases n
  {
    assert size * n == size * (n - 1) + size;
    if i + 1 < n {
      MulStep(size, i, n - 1);
    } else {
      assert i * size == size * i;
    }
  }

  /** A program header's fields that matter here. */
  datatype Segment = Segment(ptype: nat, off: nat, size: nat)

  function SegmentAt(buf: seq<byte>, h: Header, i: nat): Segment
    requires ValidHeader(buf, h) && i < h.num
  {
    var o := Ph(buf, h, i);
    Segment(Rd32(buf, o), Rd64(buf, o + 0x08), Rd64(buf, o + 0x20))
  }

  /** A record of the wrapper's segment table: the program header it names, and where its bytes are. */
  datatype Entry = Entry(id: nat, off: nat, size: nat)

  function EntryAt(buf: seq<byte>, h: Header, e: nat): Entry
    requires ValidHeader(buf, h) && h.base > 0 && e < Rd16(buf, 0x18)
  {
    var o := 0x20 + e * 0x20;
    Entry(Rd64(buf, o) / 0x10_0000 % 0x1000, Rd64(buf, o + 0x08), Rd64(buf, o + 0x10))
  }

  /** What a file says of its segments; a bare file has no entries and needs none. */
  datatype Image = Image(wrapped: bool, segs: seq<Segment>, entries: seq<Entry>)

  function ReadImage(buf: seq<byte>, h: Header): (img: Image)
    requires ValidHeader(buf, h)
    ensures |img.segs| == h.num && img.wrapped == (h.base > 0)
  {
    Image(h.base > 0,
          seq(h.num, i requires 0 <= i < h.num => SegmentAt(buf, h, i)),
          if h.base == 0 then []
          else seq(Rd16(buf, 0x18), e requires 0 <= e < Rd16(buf, 0x18) => EntryAt(buf, h, e)))
  }

  // ---- elf_self_map_offset

  /** Whether an entry names program header `i` and has its size. */
  predicate Holds(e: Entry, i: nat, size: nat) {
    e.id == i && e.size == size
  }

  /** The first entry from `e` on that holds program header `i`. */
  function FindEntry(entries: seq<Entry>, e: nat, i: nat, size: nat): (r: Option<nat>)
    requires e <= |entries|
    ensures r.Some? ==> e <= r.value < |entries| && Holds(entries[r.value], i, size)
    ensures r.None? ==> forall k | e <= k < |entries| :: !Holds(entries[k], i, size)
    decreases |entries| - e
  {
    if e == |entries| then None
    else if Holds(entries[e], i, size) then Some(e)
    else FindEntry(entries, e + 1, i, size)
  }

  /** The bound check, and the result as a signed offset: a negative one is none. */
  function Bounded(len: nat, at: nat, need: nat): Option<nat> {
    if Sum(at, need) > len || at >= I64 then None else Some(at)
  }

  /** Whether a load segment spans `need` bytes at the ELF's offset `off`. */
  predicate Spans(l: Segment, off: nat, need: nat) {
    l.ptype == 1 && l.off <= off && off + need <= l.off + l.size
  }

  /** The code's test of it. */
  predicate SeemsToSpan(l: Segment, off: nat, need: nat) {
    l.ptype == PT_LOAD && l.off <= off && Sum(off, need) <= Sum(l.off, l.size)
  }

  /** The second pass, from load segment `j` on. */
  function MapByLoad(img: Image, len: nat, j: nat, off: nat, need: nat): (r: Option<nat>)
    requires j <= |img.segs|
    ensures r.Some? ==> Sum(r.value, need) <= len && r.value < I64
    decreases |img.segs| - j
  {
    if j == |img.segs| then None
    else if !SeemsToSpan(img.segs[j], off, need) then MapByLoad(img, len, j + 1, off, need)
    else match FindEntry(img.entries, 0, j, img.segs[j].size)
      case None => MapByLoad(img, len, j + 1, off, need)
      case Some(e) => Bounded(len, Sum(img.entries[e].off, off - img.segs[j].off), need)
  }

  /** The file offset of segment `i`'s bytes, in a file of `len` bytes. */
  function MapOffset(img: Image, len: nat, i: nat): (r: Option<nat>)
    requires i < |img.segs|
    ensures r.Some? ==> Sum(r.value, img.segs[i].size) <= len && r.value < I64
  {
    var seg := img.segs[i];
    if !img.wrapped then Bounded(len, seg.off, seg.size)
    else match FindEntry(img.entries, 0, i, seg.size)
      case Some(e) => Bounded(len, img.entries[e].off, seg.size)
      case None => MapByLoad(img, len, 0, seg.off, seg.size)
  }

  /** A mapped segment lies inside the file if and only if its end does not wrap. */
  lemma MappedInsideIff(img: Image, len: nat, i: nat)
    requires i < |img.segs| && len < U64 && MapOffset(img, len, i).Some?
    ensures var at, size := MapOffset(img, len, i).value, img.segs[i].size;
            at + size <= len <==> at + size < U64
  {
  }

  // ---- Sites

  datatype Site = Site(offset: nat, segType: nat, paramOffset: nat)

  predicate IsParam(t: nat) {
    t == PT_SCE_PROCPARAM || t == PT_SCE_MODULE_PARAM
  }

  function Magic(t: nat): nat {
    if t == PT_SCE_PROCPARAM then PROCESS_PARAM_MAGIC else MODULE_PARAM_MAGIC
  }

  function SdkOffset(t: nat): nat {
    if t == PT_SCE_PROCPARAM then 0x14 else 0x10
  }

  /** A parameter segment large enough for its struct. */
  predicate Candidate(seg: Segment) {
    IsParam(seg.ptype) && seg.size >= SdkOffset(seg.ptype) + 4
  }

  /** The reported word lies inside the file, in a struct whose magic was seen there. */
  predicate GoodSite(buf: seq<byte>, s: Site) {
    && IsParam(s.segType) && s.offset == s.paramOffset + SdkOffset(s.segType)
    && s.offset + 4 <= |buf| && Rd32(buf, s.paramOffset + 0x08) == Magic(s.segType)
  }

  /** What the code makes of a segment: `Outside` when the magic it reads is not all in the file, or the magic
      is there and the word it then reports is not. */
  datatype Look = NoSite | Here(site: Site) | Outside

  function SiteIn(buf: seq<byte>, img: Image, i: nat): (r: Look)
    requires i < |img.segs|
    ensures r.Here? ==> GoodSite(buf, r.site)
  {
    if !Candidate(img.segs[i]) then NoSite
    else match MapOffset(img, |buf|, i)
      case None => NoSite
      case Some(at) =>
        var t := img.segs[i].ptype;
        if at + 0x0C > |buf| then Outside
        else if Rd32(buf, at + 0x08) != Magic(t) then NoSite
        else if at + SdkOffset(t) + 4 > |buf| then Outside
        else Here(Site(at + SdkOffset(t), t, at))
  }

  datatype Walk = Walked(sites: seq<Site>) | Strays

  function Before(s: Site, w: Walk): Walk {
    if w.Strays? then Strays else Walked([s] + w.sites)
  }

  /** The sites from segment `i` on, at most `max` of them, or that the code leaves the file. */
  function SitesFrom(buf: seq<byte>, img: Image, i: nat, max: nat): (r: Walk)
    requires i <= |img.segs|
    ensures r.Walked? ==> |r.sites| <= max && forall k | 0 <= k < |r.sites| :: GoodSite(buf, r.sites[k])
    decreases |img.segs| - i
  {
    if i == |img.segs| || max == 0 then Walked([])
    else match SiteIn(buf, img, i)
      case NoSite => SitesFrom(buf, img, i + 1, max)
      case Outside => Strays
      case Here(s) => Before(s, SitesFrom(buf, img, i + 1, max - 1))
  }

  datatype Found = Refused(status: Status) | Sites(sites: seq<Site>, status: Status) | Strayed

  /** `elf_find_param_sites` */
  function FindSites(buf: seq<byte>, max: nat): (r: Found)
    ensures r.Sites? ==> |r.sites| <= max && forall k | 0 <= k < |r.sites| :: GoodSite(buf, r.sites[k])
  {
    if max == 0 then Refused(Malformed)
    else match ParseHeader(buf)
      case Bad(status) => Refused(status)
      case Wild => Strayed
      case Good(h) =>
        match SitesFrom(buf, ReadImage(buf, h), 0, max)
        case Strays => Strayed
        case Walked(sites) => Sites(sites, if sites == [] then NoParams else Fine)
  }

  // ---- When the code stays inside the file

  /** How many of the segments from `i` up to `k` have a site. */
  function SitesAmong(buf: seq<byte>, img: Image, i: nat, k: nat): nat
    requires i <= k <= |img.segs|
    decreases k - i
  {
    if i == k then 0 else (if SiteIn(buf, img, i).Here? then 1 else 0) + SitesAmong(buf, img, i + 1, k)
  }

  /** Segment `k` is a parameter segment mapped with an end that wraps, and either its magic is not all in the
      file, or it is there and the word behind it is not. */
  ghost predicate Escapes(buf: seq<byte>, img: Image, k: nat)
    requires k < |img.segs|
  {
    && Candidate(img.segs[k]) && MapOffset(img, |buf|, k).Some?
    && (var at, t := MapOffset(img, |buf|, k).value, img.segs[k].ptype;
        && at + img.segs[k].size >= U64
        && (at + 0x0C > |buf| || (Rd32(buf, at + 0x08) == Magic(t) && at + SdkOffset(t) + 4 > |buf|)))
  }

  lemma OutsideIff(buf: seq<byte>, img: Image, k: nat)
    requires k < |img.segs| && |buf| < I64
    ensures SiteIn(buf, img, k).Outside? <==> Escapes(buf, img, k)
  {
    if MapOffset(img, |buf|, k).Some? {
      MappedInsideIff(img, |buf|, k);
    }
  }

  /** Segment `k` is reached with room for a site left, and escapes. */
  ghost predicate StraysAt(buf: seq<byte>, img: Image, i: nat, max: nat, k: int) {
    i <= k < |img.segs| && Escapes(buf, img, k) && SitesAmong(buf, img, i, k) < max
  }

  ghost predicate StraysSomewhere(buf: seq<byte>, img: Image, max: nat) {
    exists k :: StraysAt(buf, img, 0, max, k)
  }

  lemma {:induction false} StraysIff(buf: seq<byte>, img: Image, i: nat, max: nat)
    requires i <= |img.segs| && |buf| < I64
    ensures SitesFrom(buf, img, i, max).Strays? <==> exists k :: StraysAt(buf, img, i, max, k)
    decreases |img.segs| - i
  {
    hide SiteIn, Escapes;
    if i < |img.segs| && max > 0 {
      OutsideIff(buf, img, i);
      if SiteIn(buf, img, i).Outside? {
        assert StraysAt(buf, img, i, max, i);
      } else {
        var i', max' := i + 1, if SiteIn(buf, img, i).Here? then max - 1 else max;
        StraysIff(buf, img, i', max');
        if k :| StraysAt(buf, img, i', max', k) {
          assert StraysAt(buf, img, i, max, k);
        }
        if k :| StraysAt(buf, img, i, max, k) {
          assert StraysAt(buf, img, i', max', k);
        }
      }
    }
  }

  /** The code reads only in the file, and reports only words in it, if and only if the program header table
      is not `Wild` and no segment that is reached with room left escapes. */
  lemma StaysInsideIff(buf: seq<byte>, max: nat)
    requires max > 0 && |buf| < I64
    ensures FindSites(buf, max).Strayed? <==>
              || ParseHeader(buf).Wild?
              || (ParseHeader(buf).Good?
                  && StraysSomewhere(buf, ReadImage(buf, ParseHeader(buf).header), max))
  {
    if ParseHeader(buf).Good? {
      StraysIff(buf, ReadImage(buf, ParseHeader(buf).header), 0, max);
    }
  }

  // ---- The C loops

  method FindEntryLoop(entries: seq<Entry>, i: nat, size: nat) returns (r: Option<nat>)
    ensures r == FindEntry(entries, 0, i, size)
  {
    var e := 0;
    while e < |entries|
      invariant e <= |entries| && FindEntry(entries, e, i, size) == FindEntry(entries, 0, i, size)
    {
      if Holds(entries[e], i, size) { return Some(e); }
      e := e + 1;
    }
    return None;
  }

  method MapOffsetLoops(img: Image, len: nat, i: nat) returns (r: Option<nat>)
    requires i < |img.segs|
    ensures r == MapOffset(img, len, i)
  {
    var off, need := img.segs[i].off, img.segs[i].size;
    if !img.wrapped { return Bounded(len, off, need); }
    var e := FindEntryLoop(img.entries, i, need);
    if e.Some? { return Bounded(len, img.entries[e.value].off, need); }
    var j := 0;
    while j < |img.segs|
      invariant j <= |img.segs| && MapByLoad(img, len, j, off, need) == MapByLoad(img, len, 0, off, need)
    {
      if SeemsToSpan(img.segs[j], off, need) {
        e := FindEntryLoop(img.entries, j, img.segs[j].size);
        if e.Some? {
          return Bounded(len, Sum(img.entries[e.value].off, off - img.segs[j].off), need);
        }
      }
      j := j + 1;
    }
    return None;
  }

  function After(out: seq<Site>, w: Walk): Walk {
    if w.Strays? then Strays else Walked(out + w.sites)
  }

  /** The loop over the program headers, up to where it leaves the file, if it does. */
  method CollectSites(buf: seq<byte>, img: Image, max: nat) returns (w: Walk)
    ensures w == SitesFrom(buf, img, 0, max)
  {
    hide MapOffset;
    var out: seq<Site> := [];
    var i := 0;
    ghost var all := SitesFrom(buf, img, 0, max);
    ghost var rest := all;
    assert all.Walked? ==> [] + all.sites == all.sites;
    while i < |img.segs| && |out| < max
      invariant i <= |img.segs| && |out| <= max && all == After(out, rest)
      invariant rest == SitesFrom(buf, img, i, max - |out|)
      decreases |img.segs| - i
    {
      var t := img.segs[i].ptype;
      if Candidate(img.segs[i]) {
        var at := MapOffsetLoops(img, |buf|, i);
        if at.Some? {
          if at.value + 0x0C > |buf| { return Strays; }
          if Rd32(buf, at.value + 0x08) == Magic(t) {
            if at.value + SdkOffset(t) + 4 > |buf| { return Strays; }
            var s := Site(at.value + SdkOffset(t), t, at.value);
            rest := SitesFrom(buf, img, i + 1, max - |out| - 1);
            if rest.Walked? {
              Assoc(out, [s], rest.sites);
            }
            out := out + [s];
          }
        }
      }
      i := i + 1;
    }
    assert out + [] == out;
    w := Walked(out);
  }

  /** `elf_find_param_sites` as it runs. */
  method FindParamSites(buf: seq<byte>, max: nat) returns (r: Found)
    ensures r == FindSites(buf, max)
  {
    if max == 0 { return Refused(Malformed); }
    var p := ParseHeader(buf);
    if p.Bad? { return Refused(p.status); }
    if p.Wild? { return Strayed; }
    var w := CollectSites(buf, ReadImage(buf, p.header), max);
    if w.Strays? { return Strayed; }
    r := Sites(w.sites, if |w.sites| == 0 then NoParams else Fine);
  }

  // ---- A SELF against the ELF it wraps

  /** A wrapper's image and a bare file's with the same program headers. */
  ghost predicate Twins(w: Image, b: Image) {
    w.wrapped && !b.wrapped && w.segs == b.segs
  }

  /** Whatever entry of the wrapper names a segment, by index and size, holds that segment's bytes. */
  ghost predicate Faithful(self: seq<byte>, w: Image, elf: seq<byte>) {
    forall e, j | 0 <= e < |w.entries| && 0 <= j < |w.segs| && Holds(w.entries[e], j, w.segs[j].size) ::
      SameBytes(self, w.entries[e].off, elf, w.segs[j].off, w.segs[j].size)
  }

  ghost predicate HasEntry(w: Image, j: nat)
    requires j < |w.segs|
  {
    exists e | 0 <= e < |w.entries| :: Holds(w.entries[e], j, w.segs[j].size)
  }

  /** Segment `i` is in the wrapper, by an entry of its own or inside a load segment that has one. */
  ghost predicate Covered(w: Image, i: nat)
    requires i < |w.segs|
  {
    || HasEntry(w, i)
    || exists j | 0 <= j < |w.segs| :: Spans(w.segs[j], w.segs[i].off, w.segs[i].size) && HasEntry(w, j)
  }

  /** What a load segment with an entry spans lies in the ELF. */
  lemma NeedInside(self: seq<byte>, w: Image, elf: seq<byte>, off: nat, need: nat, l: nat)
    requires Faithful(self, w, elf) && l < |w.segs| && Spans(w.segs[l], off, need) && HasEntry(w, l)
    ensures off + need <= |elf|
  {
    var e :| 0 <= e < |w.entries| && Holds(w.entries[e], l, w.segs[l].size);
    assert SameBytes(self, w.entries[e].off, elf, w.segs[l].off, w.segs[l].size);
  }

  /** For a segment with a faithful entry the code's test is right. */
  lemma SpansIff(self: seq<byte>, w: Image, elf: seq<byte>, e: nat, j: nat, off: nat, need: nat)
    requires Faithful(self, w, elf) && e < |w.entries| && j < |w.segs| && Holds(w.entries[e], j, w.segs[j].size)
    requires off + need <= |elf| < I64
    ensures SameBytes(self, w.entries[e].off, elf, w.segs[j].off, w.segs[j].size)
    ensures SeemsToSpan(w.segs[j], off, need) <==> Spans(w.segs[j], off, need)
  {
    assert SameBytes(self, w.entries[e].off, elf, w.segs[j].off, w.segs[j].size);
  }

  /** The place in the wrapper of what a load segment with a faithful entry spans. */
  lemma LoadFound(self: seq<byte>, w: Image, elf: seq<byte>, e: nat, j: nat, off: nat, need: nat)
    requires e < |w.entries| && j < |w.segs| && Spans(w.segs[j], off, need) && |self| < I64
    requires SameBytes(self, w.entries[e].off, elf, w.segs[j].off, w.segs[j].size)
    ensures var at := Sum(w.entries[e].off, off - w.segs[j].off);
            Bounded(|self|, at, need) == Some(at) && SameBytes(self, at, elf, off, need)
  {
    SamePart(self, w.entries[e].off, elf, w.segs[j].off, w.segs[j].size, off - w.segs[j].off, need);
  }

  /** Mapping through a load segment finds the bytes, when some load segment has them. */
  lemma {:induction false} MapByLoadFinds(self: seq<byte>, w: Image, elf: seq<byte>, j: nat,
                                          off: nat, need: nat, l: nat)
    requires Faithful(self, w, elf) && j <= l < |w.segs| && |self| < I64 && |elf| < I64
    requires Spans(w.segs[l], off, need) && HasEntry(w, l)
    ensures var r := MapByLoad(w, |self|, j, off, need);
            r.Some? && SameBytes(self, r.value, elf, off, need)
    decreases l - j
  {
    hide Bounded, SameBytes, Sum, Faithful, SeemsToSpan;
    var e := FindEntry(w.entries, 0, j, w.segs[j].size);
    NeedInside(self, w, elf, off, need, l);
    if e.Some? {
      SpansIff(self, w, elf, e.value, j, off, need);
    }
    if SeemsToSpan(w.segs[j], off, need) && e.Some? {
      LoadFound(self, w, elf, e.value, j, off, need);
    } else {
      MapByLoadFinds(self, w, elf, j + 1, off, need, l);
    }
  }

  /** A covered segment is found in both files, with the same bytes. */
  lemma MapsTheSegment(self: seq<byte>, w: Image, elf: seq<byte>, b: Image, i: nat)
    requires Twins(w, b) && Faithful(self, w, elf) && i < |w.segs| && Covered(w, i)
    requires |self| < I64 && |elf| < I64
    ensures var at, off := MapOffset(w, |self|, i), w.segs[i].off;
            && MapOffset(b, |elf|, i) == Some(off)
            && at.Some? && SameBytes(self, at.value, elf, off, w.segs[i].size)
  {
    if FindEntry(w.entries, 0, i, w.segs[i].size).None? {
      var l :| 0 <= l < |w.segs| && Spans(w.segs[l], w.segs[i].off, w.segs[i].size) && HasEntry(w, l);
      MapByLoadFinds(self, w, elf, 0, w.segs[i].off, w.segs[i].size, l);
    }
  }

  /** Two sites that say the same of their files: the same kind of segment, the same SDK words and
      magic behind them. */
  ghost predicate SameSite(a: seq<byte>, s: Site, b: seq<byte>, t: Site) {
    && GoodSite(a, s) && GoodSite(b, t)
    && s.segType == t.segType && Rd32(a, s.offset) == Rd32(b, t.offset)
    && Rd32(a, s.paramOffset + 0x10) == Rd32(b, t.paramOffset + 0x10)
  }

  /** Equal bytes read the same. */
  lemma SameStruct(a: seq<byte>, i: nat, b: seq<byte>, j: nat, size: nat, t: nat)
    requires SameBytes(a, i, b, j, size) && IsParam(t) && size >= SdkOffset(t) + 4
    ensures Rd32(a, i + 0x08) == Rd32(b, j + 0x08) && Rd32(a, i + 0x10) == Rd32(b, j + 0x10)
    ensures Rd32(a, i + SdkOffset(t)) == Rd32(b, j + SdkOffset(t))
  {
    SameReads(a, i, b, j, size, 0x08);
    SameReads(a, i, b, j, size, 0x10);
    SameReads(a, i, b, j, size, SdkOffset(t));
  }

  lemma SameSiteIn(self: seq<byte>, w: Image, elf: seq<byte>, b: Image, i: nat)
    requires Twins(w, b) && Faithful(self, w, elf) && i < |w.segs| && |self| < I64 && |elf| < I64
    requires Candidate(w.segs[i]) ==> Covered(w, i)
    ensures var s, s' := SiteIn(self, w, i), SiteIn(elf, b, i);
            && !s.Outside? && !s'.Outside? && (s.Here? <==> s'.Here?)
            && (s.Here? ==> SameSite(self, s.site, elf, s'.site))
  {
    if Candidate(w.segs[i]) {
      MapsTheSegment(self, w, elf, b, i);
      SameStruct(self, MapOffset(w, |self|, i).value, elf, w.segs[i].off, w.segs[i].size, w.segs[i].ptype);
    }
  }

  ghost predicate SameSites(a: seq<byte>, ss: seq<Site>, b: seq<byte>, ts: seq<Site>) {
    |ss| == |ts| && forall k | 0 <= k < |ss| :: SameSite(a, ss[k], b, ts[k])
  }

  lemma SameSitesCons(a: seq<byte>, s: Site, ss: seq<Site>, b: seq<byte>, t: Site, ts: seq<Site>)
    requires SameSite(a, s, b, t) && SameSites(a, ss, b, ts)
    ensures SameSites(a, [s] + ss, b, [t] + ts)
  {
  }

  ghost predicate AllCovered(w: Image) {
    forall k | 0 <= k < |w.segs| && Candidate(w.segs[k]) :: Covered(w, k)
  }

  ghost predicate SameWalks(a: seq<byte>, v: Walk, b: seq<byte>, w: Walk) {
    v.Walked? && w.Walked? && SameSites(a, v.sites, b, w.sites)
  }

  lemma {:induction false} SameSitesFrom(self: seq<byte>, w: Image, elf: seq<byte>, b: Image, i: nat, max: nat)
    requires Twins(w, b) && Faithful(self, w, elf) && AllCovered(w) && i <= |w.segs|
    requires |self| < I64 && |elf| < I64
    ensures SameWalks(self, SitesFrom(self, w, i, max), elf, SitesFrom(elf, b, i, max))
    decreases |w.segs| - i
  {
    hide SameSite, SiteIn;
    if i < |w.segs| && max > 0 {
      SameSiteIn(self, w, elf, b, i);
      var s, s' := SiteIn(self, w, i), SiteIn(elf, b, i);
      if s.Here? {
        SameSitesFrom(self, w, elf, b, i + 1, max - 1);
        SameSitesCons(self, s.site, SitesFrom(self, w, i + 1, max - 1).sites,
                      elf, s'.site, SitesFrom(elf, b, i + 1, max - 1).sites);
      } else {
        SameSitesFrom(self, w, elf, b, i + 1, max);
      }
    }
  }

  /** For a SELF whose program headers are an ELF's, whose entries hold the segments they name and cover
      the ELF's parameter segments, directly or through a load segment: the sites found are those of the
      bare ELF, one for one and in order, with the same words, and each lies inside its file behind a
      verified magic. */
  lemma SelfSitesAreElfSites(self: seq<byte>, elf: seq<byte>, max: nat)
    requires ParseHeader(self).Good? && ParseHeader(elf).Good? && max > 0 && |self| < I64 && |elf| < I64
    requires var w, b := ReadImage(self, ParseHeader(self).header), ReadImage(elf, ParseHeader(elf).header);
             Twins(w, b) && Faithful(self, w, elf) && AllCovered(w)
    ensures var s, s' := FindSites(self, max), FindSites(elf, max);
            && s.Sites? && s'.Sites? && s.status == s'.status
            && SameSites(self, s.sites, elf, s'.sites)
  {
    var w, b := ReadImage(self, ParseHeader(self).header), ReadImage(elf, ParseHeader(elf).header);
    SameSitesFrom(self, w, elf, b, 0, max);
  }
}
