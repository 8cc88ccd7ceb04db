/** The Range header of the loopback file server (payload/installer/http_range.c), which decides the
    bytes that reach the coverage set. */
module HttpRange {
  import opened Bytes
  import opened Coverage
  import opened Wrappers

  datatype RangeResult = NoRange | Unsatisfiable | Bytes(start: u64, end: u64)

  const NEEDLE: CString := [98, 121, 116, 101, 115, 61]
  const DASH: CChar := 45
  const PLUS: CChar := 43

  // ---- The C library calls it makes

  predicate StandsAt(s: CString, i: nat, t: CString) {
    i + |t| <= |s| && s[i..i + |t|] == t
  }

  /** `strstr`: where `needle` first occurs. */
  function StrStr(s: CString, needle: CString): (at: Option<nat>)
    ensures at.Some? ==> StandsAt(s, at.value, needle)
  {
    if needle <= s then Some(0)
    else if s == [] then None
    else match StrStr(s[1..], needle)
      case None => None
      case Some(k) =>
        assert s[1..][k..k + |needle|] == s[k + 1..k + 1 + |needle|];
        Some(k + 1)
  }

  predicate FirstAt(s: CString, i: nat, c: CChar) {
    i < |s| && s[i] == c && c !in s[..i]
  }

  /** `strchr`: where `c` first occurs. */
  function StrChr(s: CString, c: CChar): (at: Option<nat>)
    ensures at.None? <==> c !in s
    ensures at.Some? ==> FirstAt(s, at.value, c)
  {
    if s == [] then None
    else if s[0] == c then Some(0)
    else match StrChr(s[1..], c)
      case None => None
      case Some(k) =>
        assert s[..k + 1] == [s[0]] + s[1..][..k];
        Some(k + 1)
  }

  predicate IsDigit(c: int) {
    48 <= c <= 57
  }

  function DigitValue(c: int): nat
    requires IsDigit(c)
  {
    c - 48
  }

  /** The run of digits at the front of `s`: the value with `acc` before it, and its length. */
  function Digits(s: CString, acc: nat): (r: (nat, nat))
    ensures r.1 <= |s|
  {
    if s == [] || !IsDigit(s[0]) then (acc, 0)
    else
      var (v, n) := Digits(s[1..], acc * 10 + DigitValue(s[0]));
      (v, n + 1)
  }

  predicate IsSpace(c: int) {
    c == 32 || 9 <= c <= 13
  }

  function Spaces(s: CString): (n: nat)
    ensures n <= |s|
  {
    if s == [] || !IsSpace(s[0]) then 0 else 1 + Spaces(s[1..])
  }

  /** `strtoull(s, &end, 10)`: leading blanks, an optional sign, digits; saturating; a minus sign
      negates in 64 bits. The second component is how far `end` moved, 0 when there is no number. */
  function StrToULL(s: CString): (r: (u64, nat))
    ensures r.1 <= |s|
  {
    var k := Spaces(s);
    var sign := if Peek(s, k) == DASH || Peek(s, k) == PLUS then 1 else 0;
    var (v, n) := Digits(s[k + sign..], 0);
    if n == 0 then (0, 0)
    else if v >= U64 then (U64 - 1, k + sign + n)
    else if Peek(s, k) == DASH then ((U64 - v) % U64, k + sign + n)
    else (v, k + sign + n)
  }

  // ---- inst_parse_range

  function Clip(s: u64, e: u64, total: u64): RangeResult {
    if total == 0 || s >= total || s > e then Unsatisfiable
    else Bytes(s, if e >= total then total - 1 else e)
  }

  /** The header's value (or its absence) and the file's size to the range to send. An accepted range
      is never empty and lies within the file. */
  function ParseRange(header: Option<CString>, total: u64): (r: RangeResult)
    ensures r.Bytes? ==> r.start <= r.end < total
  {
    if header.None? then NoRange
    else
      var unit := StrStr(header.value, NEEDLE);
      if unit.None? then NoRange
      else
        var b := header.value[unit.value + 6..];
        if StrChr(b, COMMA).Some? then NoRange
        else
          var dash := StrChr(b, DASH);
          if dash.None? then NoRange
          else if dash.value == 0 then
            var (n, moved) := StrToULL(b[1..]);
            if moved == 0 then NoRange
            else if total == 0 || n == 0 then Unsatisfiable
            else Clip(total - (if n > total then total else n), total - 1, total)
          else
            var (a, moved) := StrToULL(b);
            if moved != dash.value then NoRange
            else
              var last := b[dash.value + 1..];
              if IsDigit(Peek(last, 0)) then Clip(a, StrToULL(last).0, total)
              else Clip(a, if total > 0 then total - 1 else 0, total)
  }

  // ---- The grammar of section 14.1.2 of RFC 9110, printed

  const BYTES_UNIT: CString := ['b' as int, 'y' as int, 't' as int, 'e' as int, 's' as int, '=' as int]

  /** One or more digits, leading zeros included. */
  type Number = t: CString | t != [] && AllDigits(t) witness [48]

  predicate AllDigits(t: CString) {
    forall i | 0 <= i < |t| :: '0' as int <= t[i] <= '9' as int
  }

  function Value(t: Number): nat {
    Fold(0, t)
  }

  datatype RangeSpec = FromTo(first: Number, last: Number) | From(first: Number) | Suffix(length: Number)

  /** Which bytes of a file of `total` bytes a range spec asks for. */
  predicate Selects(spec: RangeSpec, total: nat, x: int) {
    match spec
    case FromTo(first, last) => Value(first) <= x <= Value(last) && x < total
    case From(first) => Value(first) <= x < total
    case Suffix(length) => 0 <= x < total && total - Value(length) <= x
  }

  function Decimal(n: nat): (s: CString)
    ensures s != []
  {
    if n < 10 then [48 + n] else Decimal(n / 10) + [48 + n % 10]
  }

  function PrintSpec(spec: RangeSpec): CString {
    match spec
    case FromTo(first, last) => first + ['-' as int] + last
    case From(first) => first + ['-' as int]
    case Suffix(length) => ['-' as int] + length
  }

  function Fold(acc: nat, t: CString): nat
    requires AllDigits(t)
    decreases |t|
  {
    if t == [] then acc else Fold(acc * 10 + DigitValue(t[0]), t[1..])
  }

  lemma {:induction false} FoldLast(acc: nat, t: CString, d: CChar)
    requires IsDigit(d) && AllDigits(t)
    ensures Fold(acc, t + [d]) == Fold(acc, t) * 10 + DigitValue(d)
    decreases |t|
  {
    if t == [] {
      assert Fold(acc * 10 + DigitValue(d), []) == acc * 10 + DigitValue(d);
      assert (t + [d])[1..] == [];
    } else {
      assert (t + [d])[1..] == t[1..] + [d];
      FoldLast(acc * 10 + DigitValue(t[0]), t[1..], d);
    }
  }

  /** Every number has its digits, and they have its value. */
  lemma {:induction false} DecimalFolds(n: nat)
    ensures AllDigits(Decimal(n)) && Value(Decimal(n)) == n
  {
    if n < 10 {
      assert Fold(n, []) == n;
      assert Decimal(n)[1..] == [];
    } else {
      DecimalFolds(n / 10);
      FoldLast(0, Decimal(n / 10), 48 + n % 10);
    }
  }

  lemma {:induction false} ScanDigits(t: CString, rest: CString, acc: nat)
    requires AllDigits(t)
    requires rest == [] || !IsDigit(rest[0])
    ensures Digits(t + rest, acc) == (Fold(acc, t), |t|)
    decreases |t|
  {
    if t == [] {
      assert t + rest == rest;
    } else {
      assert (t + rest)[1..] == t[1..] + rest;
      ScanDigits(t[1..], rest, acc * 10 + DigitValue(t[0]));
    }
  }

  /** `strtoull` reads a run of digits, leading zeros included, to its value, saturated to 64 bits, and
      stops right after it. */
  lemma ReadDigits(t: Number, rest: CString)
    requires rest == [] || !IsDigit(rest[0])
    ensures StrToULL(t + rest) == (Saturate(Value(t)), |t|)
  {
    ScanDigits(t, rest, 0);
    var s := t + rest;
    assert s[0] == t[0];
    assert s[0..] == s;
  }

  lemma FindsUnit(b: CString)
    ensures StrStr(BYTES_UNIT + b, BYTES_UNIT) == Some(0)
    ensures (BYTES_UNIT + b)[6..] == b
  {
  }

  lemma FirstDash(pre: CString, post: CString)
    requires DASH !in pre
    ensures StrChr(pre + [DASH] + post, DASH) == Some(|pre|)
  {
    var s := pre + [DASH] + post;
    assert s[|pre|] == DASH;
    var k := StrChr(s, DASH).value;
    assert forall i | 0 <= i < |pre| :: s[i] == pre[i];
    assert forall i | 0 <= i < k :: s[i] == s[..k][i];
  }

  /** The answer to a single range: exactly the bytes it selects, or 416 when it selects none. */
  ghost predicate Answers(r: RangeResult, spec: RangeSpec, total: u64) {
    && !r.NoRange?
    && (r.Unsatisfiable? <==> forall x :: !Selects(spec, total, x))
    && (r.Bytes? ==> forall x :: r.start <= x <= r.end <==> Selects(spec, total, x))
  }

  /** For every single range of the grammar, however large its numbers, and every file size. */
  lemma ParsesEverySpec(spec: RangeSpec, total: u64)
    ensures Answers(ParseRange(Some(BYTES_UNIT + PrintSpec(spec)), total), spec, total)
  {
    hide ParseRange, PrintSpec, Value;
    match spec
    case FromTo(first, last) =>
      ParsesFromTo(first, last, total);
      ClipMeans(spec, Saturate(Value(last)), total);
    case From(first) =>
      ParsesFrom(first, total);
      ClipMeans(spec, if total > 0 then total - 1 else 0, total);
    case Suffix(length) =>
      ParsesSuffix(length, total);
      SuffixMeans(length, total);
  }

  lemma SuffixMeans(length: Number, total: u64)
    ensures Answers(if total == 0 || Value(length) == 0 then Unsatisfiable
                    else Bytes(if Value(length) > total then 0 else total - Value(length), total - 1),
                    Suffix(length), total)
  {
    if total > 0 && Value(length) > 0 {
      assert Selects(Suffix(length), total, total - 1);
    }
  }

  function Saturate(n: nat): u64 {
    if n >= U64 then U64 - 1 else n
  }

  lemma ParsesFromTo(first: Number, last: Number, total: u64)
    ensures ParseRange(Some(BYTES_UNIT + PrintSpec(FromTo(first, last))), total)
            == Clip(Saturate(Value(first)), Saturate(Value(last)), total)
  {
    hide StrToULL, StrChr, StrStr, Value, PrintSpec;
    FindsUnit(PrintSpec(FromTo(first, last)));
    ReadsFromTo(first, last);
  }

  lemma ParsesFrom(first: Number, total: u64)
    ensures ParseRange(Some(BYTES_UNIT + PrintSpec(From(first))), total)
            == Clip(Saturate(Value(first)), if total > 0 then total - 1 else 0, total)
  {
    hide StrToULL, StrChr, StrStr, Value, PrintSpec;
    FindsUnit(PrintSpec(From(first)));
    ReadsFrom(first);
  }

  lemma ParsesSuffix(length: Number, total: u64)
    ensures ParseRange(Some(BYTES_UNIT + PrintSpec(Suffix(length))), total)
            == if total == 0 || Value(length) == 0 then Unsatisfiable
               else Bytes(if Value(length) > total then 0 else total - Value(length), total - 1)
  {
    hide StrToULL, StrChr, StrStr, Value, PrintSpec;
    FindsUnit(PrintSpec(Suffix(length)));
    ReadsSuffix(length);
  }

  lemma ReadsFromTo(first: Number, last: Number)
    ensures var b, n := PrintSpec(FromTo(first, last)), |first|;
            && COMMA !in b && StrChr(b, DASH) == Some(n)
            && StrToULL(b) == (Saturate(Value(first)), n)
            && IsDigit(Peek(b[n + 1..], 0))
            && StrToULL(b[n + 1..]).0 == Saturate(Value(last))
  {
    hide StrToULL, StrChr, Value;
    var b := PrintSpec(FromTo(first, last));
    FirstDash(first, last);
    assert b == first + ([DASH] + last);
    ReadDigits(first, [DASH] + last);
    assert b[|first| + 1..] == last == last + [];
    ReadDigits(last, []);
  }

  lemma ReadsFrom(first: Number)
    ensures var b, n := PrintSpec(From(first)), |first|;
            && COMMA !in b && StrChr(b, DASH) == Some(n)
            && StrToULL(b) == (Saturate(Value(first)), n)
            && b[n + 1..] == []
  {
    hide StrToULL, StrChr, Value;
    FirstDash(first, []);
    assert PrintSpec(From(first)) == first + [DASH] + [];
    ReadDigits(first, [DASH]);
  }

  lemma ReadsSuffix(length: Number)
    ensures var b := PrintSpec(Suffix(length));
            && COMMA !in b && StrChr(b, DASH) == Some(0)
            && StrToULL(b[1..]) == (Saturate(Value(length)), |length|)
  {
    hide StrToULL, StrChr, Value;
    var b := PrintSpec(Suffix(length));
    FirstDash([], length);
    assert b == [] + [DASH] + length;
    assert b[1..] == length + [];
    ReadDigits(length, []);
  }

  lemma ClipMeans(spec: RangeSpec, last: u64, total: u64)
    requires !spec.Suffix?
    requires last == if spec.FromTo? then Saturate(Value(spec.last)) else if total > 0 then total - 1 else 0
    ensures Answers(Clip(Saturate(Value(spec.first)), last, total), spec, total)
  {
    var first := Value(spec.first);
    if first < total && first <= last {
      assert Selects(spec, total, first);
    }
  }

  const EQUALS: CChar := 61

  const CAPITALS: CString := ['B' as int, 'Y' as int, 'T' as int, 'E' as int, 'S' as int, '=' as int]

  /** The unit in any mixture of cases. */
  ghost predicate SpellsUnit(u: CString) {
    |u| == 6 && forall i | 0 <= i < 6 :: u[i] == BYTES_UNIT[i] || u[i] == CAPITALS[i]
  }

  lemma NoEqualsInSpec(spec: RangeSpec)
    ensures EQUALS !in PrintSpec(spec)
  {
  }

  /** Range units are case-insensitive (section 14.1 of RFC 9110); here a range is answered if and only if its
      unit is in lower case, and otherwise the whole file is sent. */
  lemma UnitSpellingIff(u: CString, spec: RangeSpec, total: u64)
    requires SpellsUnit(u)
    ensures Answers(ParseRange(Some(u + PrintSpec(spec)), total), spec, total) <==> u == BYTES_UNIT
    ensures u != BYTES_UNIT ==> ParseRange(Some(u + PrintSpec(spec)), total) == NoRange
  {
    hide PrintSpec, StrChr, StrToULL, Value;
    if u == BYTES_UNIT {
      ParsesEverySpec(spec, total);
    } else {
      NoEqualsInSpec(spec);
      UnitNotFound(u, PrintSpec(spec));
    }
  }

  lemma UnitNotFound(u: CString, b: CString)
    requires SpellsUnit(u) && u != BYTES_UNIT && EQUALS !in b
    ensures StrStr(u + b, BYTES_UNIT).None?
  {
    var at := StrStr(u + b, BYTES_UNIT);
    if at.Some? {
      OnlyAtFront(u, b, at.value);
    }
  }

  lemma OnlyAtFront(u: CString, b: CString, k: nat)
    requires SpellsUnit(u) && EQUALS !in b && StandsAt(u + b, k, BYTES_UNIT)
    ensures u == BYTES_UNIT
  {
    var s := u + b;
    assert s[k..k + 6][5] == s[k + 5] == EQUALS;
    assert forall i | 6 <= i < |s| :: s[i] == b[i - 6] && s[i] != EQUALS;
    assert forall i | 0 <= i < 5 :: u[i] != EQUALS;
    assert k == 0 && s[0..6] == u;
  }

  function PrintList(specs: seq<RangeSpec>): CString
    requires specs != []
  {
    if |specs| == 1 then PrintSpec(specs[0])
    else PrintSpec(specs[0]) + [',' as int] + PrintList(specs[1..])
  }

  /** A list of two or more ranges is answered with the whole file. */
  lemma ListsAreIgnored(specs: seq<RangeSpec>, total: u64)
    requires |specs| > 1
    ensures ParseRange(Some(BYTES_UNIT + PrintList(specs)), total) == NoRange
  {
    FindsUnit(PrintList(specs));
    assert PrintList(specs)[|PrintSpec(specs[0])|] == COMMA;
  }

  // ---- Feeding the coverage set

  const SEND_CHUNK: nat := 1024 * 1024

  /** A request: its Range header, if any; whether it asks for the header alone; and how many bytes each
      turn of the body loop gets read and sent, 0 for one that fails. */
  datatype Request = Request(header: Option<CString>, head: bool, turns: seq<nat>)

  function Least(a: nat, b: nat): nat {
    if a < b then a else b
  }

  /** The body loop from `off` on: a range recorded per turn, until `end` is passed or a turn fails. */
  function Chunks(off: u64, end: u64, turns: seq<nat>): (ranges: seq<Interval>)
    requires end < U64 - 1
    ensures forall i | 0 <= i < |ranges| :: off <= ranges[i].start <= ranges[i].end <= end
    ensures forall i | 0 <= i < |ranges| :: ranges[i].end - ranges[i].start < 0x10_0000
    decreases |turns|
  {
    if off > end || turns == [] || turns[0] == 0 then []
    else
      var n := Least(turns[0], Least(SEND_CHUNK, end - off + 1));
      [Interval(off, off + n - 1)] + Chunks(off + n, end, turns[1..])
  }

  /** What a request records of a file of `total` bytes. */
  function Served(r: Request, total: u64): (ranges: seq<Interval>)
    ensures forall i | 0 <= i < |ranges| :: ranges[i].start <= ranges[i].end < total
  {
    if r.head || total == 0 then []
    else match ParseRange(r.header, total)
      case Unsatisfiable => []
      case NoRange => Chunks(0, total - 1, r.turns)
      case Bytes(start, end) => Chunks(start, end, r.turns)
  }

  // ---- What a whole request records

  /** The body is not asked for the header alone, and no turn of its loop fails before its end. */
  predicate Uncut(r: Request, total: u64) {
    !r.head && |r.turns| >= total && forall i | 0 <= i < |r.turns| :: r.turns[i] > 0
  }

  /** No range is asked for: there is no header, it has no range unit in it, or it has a comma after that. */
  ghost predicate AsksForAll(header: Option<CString>) {
    || header.None?
    || (forall i: nat :: !StandsAt(header.value, i, BYTES_UNIT))
    || (exists specs :: |specs| > 1 && header.value == BYTES_UNIT + PrintList(specs))
  }

  lemma NoUnitNoRange(header: CString, total: u64)
    requires forall i: nat :: !StandsAt(header, i, BYTES_UNIT)
    ensures ParseRange(Some(header), total) == NoRange
  {
    var at := StrStr(header, BYTES_UNIT);
  }

  lemma AllIsNoRange(header: Option<CString>, total: u64)
    requires AsksForAll(header)
    ensures ParseRange(header, total) == NoRange
  {
    hide StrStr, StrChr, StrToULL, PrintList;
    if header.Some? {
      if forall i: nat :: !StandsAt(header.value, i, BYTES_UNIT) {
        NoUnitNoRange(header.value, total);
      } else {
        var specs :| |specs| > 1 && header.value == BYTES_UNIT + PrintList(specs);
        ListsAreIgnored(specs, total);
      }
    }
  }

  /** A request without a range records exactly the whole file, byte 0 to the last. */
  lemma WholeFileIsRecorded(r: Request, total: u64)
    requires Uncut(r, total) && AsksForAll(r.header) && total < U64 - 1
    ensures forall x :: Covers(Served(r, total), x) <==> 0 <= x < total
  {
    hide ParseRange, Covers, Chunks;
    AllIsNoRange(r.header, total);
    if total == 0 {
      NothingIsCovered();
    } else {
      ChunksCover(0, total - 1, r.turns);
    }
  }

  lemma NothingIsCovered()
    ensures forall x :: !Covers([], x)
  {
  }

  /** A request for a range records exactly the bytes it selects. */
  lemma RangeIsRecorded(r: Request, spec: RangeSpec, total: u64)
    requires Uncut(r, total) && r.header == Some(BYTES_UNIT + PrintSpec(spec)) && total < U64 - 1
    ensures forall x :: Covers(Served(r, total), x) <==> Selects(spec, total, x)
  {
    hide ParseRange, Covers, Chunks, Selects, PrintSpec;
    var range := ParseRange(r.header, total);
    ParsesEverySpec(spec, total);
    NothingIsCovered();
    SelectsInside(spec, total);
    if total > 0 && range.Bytes? {
      ChunksCover(range.start, range.end, r.turns);
    }
  }

  lemma SelectsInside(spec: RangeSpec, total: u64)
    ensures forall x :: Selects(spec, total, x) ==> 0 <= x < total
  {
  }

  /** A request for the header alone records nothing. */
  lemma HeadRecordsNothing(r: Request, total: u64)
    requires r.head
    ensures forall x :: !Covers(Served(r, total), x)
  {
  }

  // ---- Headers outside the grammar

  /** A header with no dash after the unit, and no comma, asks for nothing. */
  lemma NoDashNoRange(b: CString, total: u64)
    requires DASH !in b
    ensures ParseRange(Some(BYTES_UNIT + b), total) == NoRange
  {
    hide StrStr, StrToULL;
    FindsUnit(b);
  }

  /** What `isspace` holds of. */
  const BLANKS: set<CChar> := {' ' as int, '\t' as int, '\n' as int, 11, 12, '\r' as int}

  /** Nor does one with anything but blanks, a sign and digits before the dash. */
  lemma JunkNoRange(junk: CChar, pre: CString, post: CString, total: u64)
    requires !('0' as int <= junk <= '9' as int) && junk !in BLANKS && junk != '+' as int && junk != '-' as int
    requires '-' as int !in pre
    ensures ParseRange(Some(BYTES_UNIT + ([junk] + pre + [DASH] + post)), total) == NoRange
  {
    hide StrStr, StrChr, StrToULL;
    var b := [junk] + pre + [DASH] + post;
    FindsUnit(b);
    FirstDash([junk] + pre, post);
    assert b[0] == junk;
    NoNumber(b);
  }

  lemma NoNumber(b: CString)
    requires b != [] && !('0' as int <= b[0] <= '9' as int) && b[0] !in BLANKS
    requires b[0] != '+' as int && b[0] != '-' as int
    ensures StrToULL(b) == (0, 0)
  {
    assert b[0..] == b;
  }

  lemma {:induction false} SkipsBlanks(blanks: CString, rest: CString)
    requires (forall i | 0 <= i < |blanks| :: blanks[i] in BLANKS) && (rest == [] || !IsSpace(rest[0]))
    ensures Spaces(blanks + rest) == |blanks|
    decreases |blanks|
  {
    if blanks == [] {
      assert blanks + rest == rest;
    } else {
      assert (blanks + rest)[1..] == blanks[1..] + rest;
      SkipsBlanks(blanks[1..], rest);
    }
  }

  /** `strtoull` takes blanks and a sign in front; a minus negates in 64 bits, a number past them saturates. */
  lemma ReadsSigned(blanks: CString, sign: CString, t: Number, rest: CString)
    requires (forall i | 0 <= i < |blanks| :: blanks[i] in BLANKS) && (sign == [] || sign == [43] || sign == [45])
    requires rest == [] || !IsDigit(rest[0])
    ensures StrToULL(blanks + (sign + (t + rest)))
            == (if Value(t) >= U64 then U64 - 1 else if sign == [45] then (U64 - Value(t)) % U64 else Value(t),
                |blanks| + |sign| + |t|)
  {
    var k := |blanks|;
    var tail := sign + (t + rest);
    var s := blanks + tail;
    assert tail[0] == if sign == [] then t[0] else sign[0];
    SkipsBlanks(blanks, tail);
    assert s[k] == tail[0];
    assert s[k + |sign|..] == t + rest;
    ScanDigits(t, rest, 0);
  }

  /** What workers record of a file in any order: each range is a chunk of some request's body. Every
      interleaving of the requests' chunks is such a sequence. */
  ghost predicate Recorded(ranges: seq<Interval>, requests: seq<Request>, total: u64) {
    forall k | 0 <= k < |ranges| :: exists i | 0 <= i < |requests| :: ranges[k] in Served(requests[i], total)
  }

  /** A loop whose turns never fail, and are enough, records exactly its range. */
  lemma {:induction false} ChunksCover(off: u64, end: u64, turns: seq<nat>)
    requires end < U64 - 1 && |turns| >= end - off + 1 && forall i | 0 <= i < |turns| :: turns[i] > 0
    ensures forall x :: Covers(Chunks(off, end, turns), x) <==> off <= x <= end
    decreases |turns|
  {
    if off <= end {
      var n := Least(turns[0], Least(SEND_CHUNK, end - off + 1));
      ChunksCover(off + n, end, turns[1..]);
      CoversCons(Interval(off, off + n - 1), Chunks(off + n, end, turns[1..]));
    }
  }

  /** When every turn gets what it asks for, the body goes out in chunks of 1 MiB, the last one shorter. */
  lemma {:induction false} FullTurns(off: u64, end: u64, turns: seq<nat>, i: nat)
    requires end < U64 - 1 && i < |turns| && forall k | 0 <= k < |turns| :: turns[k] >= 0x10_0000
    requires off + i * 0x10_0000 <= end
    ensures i < |Chunks(off, end, turns)|
    ensures var at := off + i * 0x10_0000;
            Chunks(off, end, turns)[i] == Interval(at, if end - at < 0x10_0000 then end else at + 0xF_FFFF)
    decreases |turns|
  {
    if i > 0 {
      FullTurns(off + 0x10_0000, end, turns[1..], i - 1);
    }
  }

  /** Over every run of requests for one file, served by any number of workers at once, whatever their headers
      and wherever their bodies are cut short: the coverage stays inside the file, its byte count never passes
      the file's size, reaches it exactly when the set is complete, and a job that is not stalled is released
      exactly then. */
  lemma ServingAgrees(ranges: seq<Interval>, requests: seq<Request>, total: u64, idleSeconds: real)
    requires Recorded(ranges, requests, total) && idleSeconds < 300.0
    ensures var s := Run(ranges);
            && WellFormed(s) && Within(s, total)
            && 0 <= BytesOf(s) <= total
            && (total > 0 ==> (BytesOf(s) == total <==> IsComplete(s, total)))
            && (Admits(true, Released(BytesOf(s) % U64, total, idleSeconds)) <==> IsComplete(s, total))
  {
    hide Served, Released, IsComplete, Admits, Run, BytesOf;
    forall k | 0 <= k < |ranges| ensures ranges[k].start <= ranges[k].end < total {
      var i :| 0 <= i < |requests| && ranges[k] in Served(requests[i], total);
      ServedInside(requests[i], total, ranges[k]);
    }
    RunWithin(ranges, total);
    AdmittedIffComplete(Run(ranges), total, idleSeconds);
    if total == 0 {
      assert |ranges| > 0 ==> ranges[0].end < 0;
      assert ranges == [];
      NothingRun();
    }
  }

  lemma ServedInside(r: Request, total: u64, iv: Interval)
    requires iv in Served(r, total)
    ensures iv.start <= iv.end < total
  {
  }

  lemma NothingRun()
    ensures Run([]) == [] && BytesOf([]) == 0
  {
  }
}
