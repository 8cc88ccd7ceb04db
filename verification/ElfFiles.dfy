/** Small ELF files on which the header sums of payload/include/elf_param.h wrap, byte by byte, and what the
    search for SDK words then does. */
module ElfFiles {
  import opened Bytes
  import opened Wrappers
  import opened ElfParam
  import opened ElfWrap

  /** An ELF header: where its program headers are, how long each is and how many. */
  function Head(phoff: nat, entsize: nat, num: nat): (b: seq<byte>)
    requires phoff < U64 && entsize < 0x1_0000 && num < 0x1_0000
    ensures |b| == 0x40
  {
    ELF_MAGIC + (Zeros(0x1C) + (LE(phoff, 8) + (Zeros(0x0E) + (LE(entsize, 2) + (LE(num, 2) + Zeros(6))))))
  }

  predicate WritableSegment(s: Segment) {
    s.ptype < 0x1_0000_0000 && s.off < U64 && s.size < U64
  }

  /** A program header of 0x28 bytes. */
  function HeaderOf(s: Segment): (b: seq<byte>)
    requires WritableSegment(s)
    ensures |b| == 0x28
  {
    LE(s.ptype, 4) + (Zeros(4) + (LE(s.off, 8) + (Zeros(0x10) + LE(s.size, 8))))
  }

  ghost predicate AllWritten(segs: seq<Segment>) {
    |segs| < 0x1_0000 && forall i | 0 <= i < |segs| :: WritableSegment(segs[i])
  }

  function Headers(segs: seq<Segment>): (b: seq<byte>)
    requires forall i | 0 <= i < |segs| :: WritableSegment(segs[i])
    ensures |b| == 0x28 * |segs|
  {
    if segs == [] then [] else HeaderOf(segs[0]) + Headers(segs[1..])
  }

  /** A bare ELF with these segments. */
  function Elf(segs: seq<Segment>, rest: seq<byte>): (b: seq<byte>)
    requires AllWritten(segs)
    ensures |b| == 0x40 + 0x28 * |segs| + |rest|
  {
    Head(0x40, 0x28, |segs|) + (Headers(segs) + rest)
  }

  function OneSegment(s: Segment, rest: seq<byte>): (b: seq<byte>)
    requires WritableSegment(s)
    ensures |b| == 0x68 + |rest|
  {
    Elf([s], rest)
  }

  // ---- Reading them back

  ghost predicate Has(file: seq<byte>, at: nat, part: seq<byte>) {
    SameBytes(file, at, part, 0, |part|)
  }

  lemma HasBoth(file: seq<byte>, at: nat, a: seq<byte>, b: seq<byte>)
    requires Has(file, at, a + b)
    ensures Has(file, at, a) && Has(file, at + |a|, b)
  {
    var both := a + b;
    SamePart(file, at, both, 0, |both|, 0, |a|);
    SamePart(file, at, both, 0, |both|, |a|, |b|);
    assert both[0..|a|] == a[0..|a|] && both[|a|..|a| + |b|] == b[0..|b|];
  }

  lemma HasWhole(file: seq<byte>)
    ensures Has(file, 0, file)
  {
  }

  lemma Has16(file: seq<byte>, at: nat, n: nat)
    requires n < 0x1_0000 && Has(file, at, LE(n, 2))
    ensures at + 2 <= |file| && Rd16(file, at) == n
  {
    Reads16(n);
    SameReads(file, at, LE(n, 2), 0, 2, 0);
  }

  lemma Has32(file: seq<byte>, at: nat, n: nat)
    requires n < 0x1_0000_0000 && Has(file, at, LE(n, 4))
    ensures at + 4 <= |file| && Rd32(file, at) == n
  {
    Reads32(n);
    SameReads(file, at, LE(n, 4), 0, 4, 0);
  }

  lemma Has64(file: seq<byte>, at: nat, n: nat)
    requires n < U64 && Has(file, at, LE(n, 8))
    ensures at + 8 <= |file| && Rd64(file, at) == n
  {
    Reads64Back(n);
    SameReads(file, at, LE(n, 8), 0, 8, 0);
  }

  /** The header's fields, read from a file that starts with it. */
  lemma ReadsHead(file: seq<byte>, phoff: nat, entsize: nat, num: nat)
    requires phoff < U64 && entsize < 0x1_0000 && num < 0x1_0000 && Has(file, 0, Head(phoff, entsize, num))
    ensures |file| >= 0x40 && PayloadOffset(file) == Some(0) && file[0..4] == ELF_MAGIC
    ensures Rd64(file, 0x20) == phoff && Rd16(file, 0x36) == entsize && Rd16(file, 0x38) == num
  {
    hide LE, SameBytes, Rd16, Rd64, Zeros;
    var f := LE(num, 2) + Zeros(6);
    var e := LE(entsize, 2) + f;
    var d := Zeros(0x0E) + e;
    var c := LE(phoff, 8) + d;
    var b := Zeros(0x1C) + c;
    HasBoth(file, 0, ELF_MAGIC, b);
    HasBoth(file, 4, Zeros(0x1C), c);
    HasBoth(file, 0x20, LE(phoff, 8), d);
    HasBoth(file, 0x28, Zeros(0x0E), e);
    HasBoth(file, 0x36, LE(entsize, 2), f);
    HasBoth(file, 0x38, LE(num, 2), Zeros(6));
    Has64(file, 0x20, phoff);
    Has16(file, 0x36, entsize);
    Has16(file, 0x38, num);
    HasMagic(file);
    HeadLength(file, Head(phoff, entsize, num));
  }

  lemma HeadLength(file: seq<byte>, head: seq<byte>)
    requires Has(file, 0, head)
    ensures |file| >= |head|
  {
  }

  lemma HasMagic(file: seq<byte>)
    requires Has(file, 0, ELF_MAGIC)
    ensures |file| >= 4 && file[0..4] == ELF_MAGIC && PayloadOffset(file) == Some(0)
  {
    assert ELF_MAGIC[0..4] == ELF_MAGIC;
    SameByte(file, 0, ELF_MAGIC, 0, 4, 0);
    SameByte(file, 0, ELF_MAGIC, 0, 4, 1);
    SameByte(file, 0, ELF_MAGIC, 0, 4, 2);
    SameByte(file, 0, ELF_MAGIC, 0, 4, 3);
    assert Rd32(file, 0) == 0x464C_457F;
  }

  lemma ReadsSegment(file: seq<byte>, at: nat, s: Segment)
    requires WritableSegment(s) && Has(file, at, HeaderOf(s))
    ensures at + 0x28 <= |file|
    ensures Segment(Rd32(file, at), Rd64(file, at + 0x08), Rd64(file, at + 0x20)) == s
  {
    hide LE, SameBytes, Rd32, Rd64, Zeros;
    var d := Zeros(0x10) + LE(s.size, 8);
    var c := LE(s.off, 8) + d;
    var b := Zeros(4) + c;
    HasBoth(file, at, LE(s.ptype, 4), b);
    HasBoth(file, at + 4, Zeros(4), c);
    HasBoth(file, at + 8, LE(s.off, 8), d);
    HasBoth(file, at + 0x10, Zeros(0x10), LE(s.size, 8));
    Has32(file, at, s.ptype);
    Has64(file, at + 0x08, s.off);
    Has64(file, at + 0x20, s.size);
  }

  lemma {:induction false} HasHeader(file: seq<byte>, at: nat, segs: seq<Segment>, i: nat)
    requires (forall k | 0 <= k < |segs| :: WritableSegment(segs[k])) && Has(file, at, Headers(segs)) && i < |segs|
    ensures Has(file, at + 0x28 * i, HeaderOf(segs[i]))
    decreases i
  {
    hide SameBytes, HeaderOf;
    HasBoth(file, at, HeaderOf(segs[0]), Headers(segs[1..]));
    if i > 0 {
      HasHeader(file, at + 0x28, segs[1..], i - 1);
    }
  }

  /** A written file parses to its segments, whatever follows. */
  lemma ReadsSegments(segs: seq<Segment>, rest: seq<byte>)
    requires AllWritten(segs) && 0x40 + 0x28 * |segs| + |rest| < I64
    ensures var file, h := Elf(segs, rest), Header(0, 0x40, 0x28, |segs|);
            ParseHeader(file) == Good(h) && ReadImage(file, h) == Image(false, segs, [])
  {
    hide Head, HeaderOf, SameBytes, Rd16, Rd32, Rd64;
    var n := |segs|;
    var file, h := Elf(segs, rest), Header(0, 0x40, 0x28, n);
    HasWhole(file);
    HasBoth(file, 0, Head(0x40, 0x28, n), Headers(segs) + rest);
    HasBoth(file, 0x40, Headers(segs), rest);
    ReadsHead(file, 0x40, 0x28, n);
    assert ParseHeader(file) == Good(h);
    forall i | 0 <= i < n ensures SegmentAt(file, h, i) == segs[i] {
      HasHeader(file, 0x40, segs, i);
      ReadsSegment(file, 0x40 + 0x28 * i, segs[i]);
    }
    assert ReadImage(file, h).segs == segs;
  }

  lemma ReadsOneSegment(s: Segment, rest: seq<byte>)
    requires WritableSegment(s) && 0x68 + |rest| < I64
    ensures var file := OneSegment(s, rest);
            && ParseHeader(file) == Good(Header(0, 0x40, 0x28, 1))
            && ReadImage(file, Header(0, 0x40, 0x28, 1)) == Image(false, [s], [])
  {
    ReadsSegments([s], rest);
  }

  // ---- What is found in a written file

  /** The struct at `at` has this magic word in its third field. */
  ghost predicate HasWord(file: seq<byte>, at: nat, word: nat) {
    at + 12 <= |file| && file[at + 8..at + 12] == LE(word, 4)
  }

  /** The site of one segment, if it is a parameter segment that lies in the file with its struct: a process's SDK
      word is at 0x14, a module's at 0x10. */
  ghost function Expected(file: seq<byte>, s: Segment): seq<Site> {
    if s.off + s.size > |file| then []
    else if s.ptype == 0x61000001 && s.size >= 0x18 && HasWord(file, s.off, 0x4942524F) then
      [Site(s.off + 0x14, s.ptype, s.off)]
    else if s.ptype == 0x61000002 && s.size >= 0x14 && HasWord(file, s.off, 0x3C13F4BF) then
      [Site(s.off + 0x10, s.ptype, s.off)]
    else []
  }

  ghost function AllExpected(file: seq<byte>, segs: seq<Segment>): seq<Site> {
    if segs == [] then [] else Expected(file, segs[0]) + AllExpected(file, segs[1..])
  }

  ghost function AtMost(sites: seq<Site>, max: nat): seq<Site> {
    if |sites| <= max then sites else sites[..max]
  }

  lemma WordIff(file: seq<byte>, at: nat, word: nat)
    requires at + 12 <= |file| && word < 0x1_0000_0000
    ensures HasWord(file, at, word) <==> Rd32(file, at + 8) == word
  {
    var b := LE(word, 4);
    Reads32(word);
    var part := file[at + 8..at + 12];
    assert part[0..4] == part;
    SameReads(file, at + 8, part, 0, 4, 0);
    SameWord(part, b);
  }

  lemma SameWord(a: seq<byte>, b: seq<byte>)
    requires |a| == |b| == 4
    ensures a == b <==> Rd32(a, 0) == Rd32(b, 0)
  {
    if Rd32(a, 0) == Rd32(b, 0) {
      var a2, b2 := At(a, 2) + 256 * At(a, 3), At(b, 2) + 256 * At(b, 3);
      LowDigit(At(a, 0), At(a, 1) + 256 * a2, At(b, 0), At(b, 1) + 256 * b2);
      LowDigit(At(a, 1), a2, At(b, 1), b2);
      LowDigit(At(a, 2), At(a, 3), At(b, 2), At(b, 3));
    }
  }

  lemma LowDigit(a: nat, x: nat, b: nat, y: nat)
    requires a < 256 && b < 256 && a + 256 * x == b + 256 * y
    ensures a == b && x == y
  {
  }

  lemma LooksAt(file: seq<byte>, segs: seq<Segment>, i: nat)
    requires i < |segs| && |file| < I64 && segs[i].off + segs[i].size < U64
    ensures var look := SiteIn(file, Image(false, segs, []), i);
            && !look.Outside?
            && Expected(file, segs[i]) == if look.Here? then [look.site] else []
  {
    hide Rd32, HasWord;
    var s := segs[i];
    if s.off + s.size <= |file| && s.size >= 0x14 {
      WordIff(file, s.off, 0x4942524F);
      WordIff(file, s.off, 0x3C13F4BF);
    }
  }

  lemma {:induction false} WalksExpected(file: seq<byte>, segs: seq<Segment>, i: nat, max: nat)
    requires i <= |segs| && |file| < I64 && forall k | 0 <= k < |segs| :: segs[k].off + segs[k].size < U64
    ensures SitesFrom(file, Image(false, segs, []), i, max) == Walked(AtMost(AllExpected(file, segs[i..]), max))
    decreases |segs| - i
  {
    hide SiteIn, Expected;
    if i < |segs| {
      var rest := AllExpected(file, segs[i + 1..]);
      assert segs[i..][0] == segs[i] && segs[i..][1..] == segs[i + 1..];
      LooksAt(file, segs, i);
      WalksExpected(file, segs, i + 1, max);
      if max > 0 {
        WalksExpected(file, segs, i + 1, max - 1);
      }
      if SiteIn(file, Image(false, segs, []), i).Here? {
        var site := SiteIn(file, Image(false, segs, []), i).site;
        assert max > 0 ==> AtMost([site] + rest, max) == [site] + AtMost(rest, max - 1);
      } else {
        assert [] + rest == rest;
      }
    }
  }

  /** The search of any written bare ELF whose segments' ends do not wrap: the first `max` of exactly the parameter
      segments that lie in the file with their magic, in header order, each with the place of its SDK word. */
  lemma FindsExpected(segs: seq<Segment>, rest: seq<byte>, max: nat)
    requires AllWritten(segs) && 0x40 + 0x28 * |segs| + |rest| < I64 && max > 0
    requires forall k | 0 <= k < |segs| :: segs[k].off + segs[k].size < U64
    ensures var file := Elf(segs, rest);
            var sites := AllExpected(file, segs);
            FindSites(file, max) == Sites(AtMost(sites, max), if sites == [] then NoParams else Fine)
  {
    hide SitesFrom, AllExpected, Elf, ParseHeader, ReadImage;
    var file := Elf(segs, rest);
    ReadsSegments(segs, rest);
    WalksExpected(file, segs, 0, max);
    assert segs[0..] == segs;
  }

  // ---- What is refused

  /** The bytes 0x7F, 'E', 'L', 'F'. */
  ghost predicate ElfAt(buf: seq<byte>, at: nat) {
    at + 4 <= |buf| && buf[at] == 0x7F && buf[at + 1] == 'E' as int && buf[at + 2] == 'L' as int
    && buf[at + 3] == 'F' as int
  }

  ghost predicate IsWrapped(buf: seq<byte>) {
    |buf| >= 4 && (buf[..4] == [0x4F, 0x15, 0x3D, 0x1D] || buf[..4] == [0x54, 0x14, 0xF5, 0xEE])
  }

  /** Where the ELF is: behind the wrapper's table of 32-byte entries, whose number is at 0x18. */
  ghost function ElfStart(buf: seq<byte>): nat {
    if IsWrapped(buf) && |buf| >= 0x22 then 0x20 + 0x20 * FromLE(buf[0x18..0x1A]) else 0
  }

  lemma WrappedIff(buf: seq<byte>)
    requires |buf| >= 4
    ensures IsWrapped(buf) <==> Rd32(buf, 0) == SELF_MAGIC_PS4 || Rd32(buf, 0) == SELF_MAGIC_PS5
  {
    var part := buf[..4];
    assert part[0..4] == part == buf[0..4];
    SameReads(buf, 0, part, 0, 4, 0);
    SameWord(part, [0x4F, 0x15, 0x3D, 0x1D]);
    SameWord(part, [0x54, 0x14, 0xF5, 0xEE]);
  }

  lemma ElfAtIff(buf: seq<byte>, at: nat)
    requires at + 4 <= |buf|
    ensures buf[at..at + 4] == ELF_MAGIC <==> ElfAt(buf, at)
  {
    var part := buf[at..at + 4];
    assert part[0] == buf[at] && part[1] == buf[at + 1] && part[2] == buf[at + 2] && part[3] == buf[at + 3];
  }

  lemma TooShort(buf: seq<byte>)
    requires |buf| < 4
    ensures !IsWrapped(buf)
  {
  }

  lemma ReadsTwo(buf: seq<byte>, at: nat)
    requires at + 2 <= |buf|
    ensures FromLE(buf[at..at + 2]) == Rd16(buf, at)
  {
    var part := buf[at..at + 2];
    assert part[0] == buf[at] && part[1..] == [buf[at + 1]];
    assert FromLE(part[1..]) == buf[at + 1] + 256 * FromLE([]) by { assert part[1..][1..] == []; }
  }

  lemma StartIs(buf: seq<byte>)
    ensures PayloadOffset(buf) ==
              if IsWrapped(buf) && (|buf| < 0x22 || !ElfAt(buf, ElfStart(buf))) then None else Some(ElfStart(buf))
  {
    hide IsWrapped;
    if |buf| < 4 {
      TooShort(buf);
    } else {
      WrappedIff(buf);
    }
    if |buf| >= 0x22 {
      var n := Rd16(buf, 0x18);
      ReadsTwo(buf, 0x18);
      if 0x20 + 0x20 * n + 4 <= |buf| {
        ElfAtIff(buf, 0x20 + 0x20 * n);
      }
    }
  }

  ghost predicate WholeHeaderAt(buf: seq<byte>, at: nat) {
    ElfAt(buf, at) && at + 0x40 <= |buf|
  }

  /** A program header table of no room, at no place, or with an end, in 64 bits, behind the ELF's. */
  ghost predicate BadTable(buf: seq<byte>, at: nat)
    requires at + 0x40 <= |buf|
  {
    var place, entsize, num := Rd64(buf, at + 0x20), Rd16(buf, at + 0x36), Rd16(buf, at + 0x38);
    entsize < 0x28 || place == 0 || (place + entsize * num) % 0x1_0000_0000_0000_0000 > |buf| - at
  }

  /** A wrapper with no readable ELF behind its table is refused as signed, and only that; anything else that has
      no whole ELF header is refused as no ELF; and then a table out of bounds as malformed. */
  lemma RefusalsMean(buf: seq<byte>, max: nat)
    requires max > 0
    ensures FindSites(buf, max) == Refused(SignedSelf) <==>
              IsWrapped(buf) && (|buf| < 0x22 || !ElfAt(buf, ElfStart(buf)))
    ensures FindSites(buf, max) == Refused(NotElf) <==>
              || (!IsWrapped(buf) && (|buf| < 0x40 || !ElfAt(buf, 0)))
              || (IsWrapped(buf) && |buf| >= 0x22 && ElfAt(buf, ElfStart(buf)) && ElfStart(buf) + 0x40 > |buf|)
    ensures FindSites(buf, max) == Refused(Malformed) <==>
              WholeHeaderAt(buf, ElfStart(buf)) && BadTable(buf, ElfStart(buf)) && (IsWrapped(buf) ==> |buf| >= 0x22)
  {
    hide PayloadOffset, IsWrapped, SitesFrom, Rd16, Rd64;
    StartIs(buf);
    NotWrapped(buf);
    var at := ElfStart(buf);
    if at + 4 <= |buf| {
      ElfAtIff(buf, at);
    }
  }

  lemma NotWrapped(buf: seq<byte>)
    ensures !IsWrapped(buf) ==> ElfStart(buf) == 0
  {
  }

  // ---- Where the code leaves the file

  const FAR: nat := 0x100_0000

  /** A file of 0x68 bytes whose parameter segment starts at 16 MiB with a size that wraps its end to 0: the
      bound check passes, and the magic is read outside the file. */
  lemma WrappedEndStrays(max: nat)
    requires max > 0
    ensures FindSites(OneSegment(Segment(PT_SCE_PROCPARAM, FAR, U64 - FAR), []), max).Strayed?
  {
    hide OneSegment, ParseHeader, ReadImage, SitesFrom;
    var s := Segment(PT_SCE_PROCPARAM, FAR, U64 - FAR);
    FindsInOne(s, [], max);
    assert MapOffset(Image(false, [s], []), 0x68, 0) == Some(FAR);
  }

  /** With one segment, what the search makes of it is all there is. */
  lemma FindsInOne(s: Segment, rest: seq<byte>, max: nat)
    requires WritableSegment(s) && 0x68 + |rest| < I64 && max > 0
    ensures var file := OneSegment(s, rest);
            FindSites(file, max) ==
              match SiteIn(file, Image(false, [s], []), 0)
              case NoSite => Sites([], NoParams)
              case Outside => Strayed
              case Here(site) => Sites([site], Fine)
  {
    hide OneSegment, ParseHeader, ReadImage, SiteIn;
    var file, img := OneSegment(s, rest), Image(false, [s], []);
    ReadsOneSegment(s, rest);
    assert SitesFrom(file, img, 1, max) == Walked([]) && SitesFrom(file, img, 1, max - 1) == Walked([]);
    assert SiteIn(file, img, 0).Here? ==> [SiteIn(file, img, 0).site] + [] == [SiteIn(file, img, 0).site];
  }

  /** A process parameter segment that starts twelve bytes before the end, with a size that wraps: the file's
      last four bytes are read for the magic. If they are not it, the code stays inside and reports nothing; if
      they are, it reports a word past the end. */
  lemma LastBytesDecide(rest: seq<byte>, max: nat)
    requires 0x68 + |rest| < I64 && max > 0
    ensures var at := 0x68 + |rest| - 12;
            var file := OneSegment(Segment(PT_SCE_PROCPARAM, at, U64 - at), rest);
            && (Rd32(file, |file| - 4) != PROCESS_PARAM_MAGIC ==> FindSites(file, max) == Sites([], NoParams))
            && (Rd32(file, |file| - 4) == PROCESS_PARAM_MAGIC ==> FindSites(file, max).Strayed?)
  {
    hide Rd32, OneSegment, FindSites;
    var at := 0x68 + |rest| - 12;
    var s := Segment(PT_SCE_PROCPARAM, at, U64 - at);
    FindsInOne(s, rest, max);
    assert MapOffset(Image(false, [s], []), at + 12, 0) == Some(at);
  }

  /** A file of 0x40 bytes whose one program header would end at 2^64: the table is accepted and read outside. */
  lemma WildTable(max: nat)
    requires max > 0
    ensures var file := Head(U64 - 0x28, 0x28, 1);
            ParseHeader(file).Wild? && FindSites(file, max).Strayed?
  {
    hide Head, SameBytes, Rd16, Rd32, Rd64;
    var file := Head(U64 - 0x28, 0x28, 1);
    HasWhole(file);
    ReadsHead(file, U64 - 0x28, 0x28, 1);
  }
}
