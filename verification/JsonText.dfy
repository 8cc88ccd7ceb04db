/** JSON string text: the escaper (payload/include/json_escape.h), the decoder that undoes it
    (cj_decode and its helpers in payload/include/cheats_json.h), and UTF-8. */
module JsonText {
  import opened Bytes
  import opened Wrappers

  const LETTER_U: CChar := 0x75
  const QUESTION: CChar := 0x3F

  // ---- json_escape_into

  function EscapeByte(c: CChar): (r: CString)
    ensures 1 <= |r| <= 2
  {
    if c == '"' as int || c == '\\' as int then ['\\' as int, c]
    else if c < 0x20 then ['?' as int]
    else [c]
  }

  function EscapeAll(src: CString): CString {
    if src == [] then [] else EscapeByte(src[0]) + EscapeAll(src[1..])
  }

  /** How many bytes of `src` the loop takes when `left` bytes of the buffer are free: it goes on while
      more than two are. */
  function Taken(src: CString, left: int): (k: nat)
    ensures k <= |src|
  {
    if src == [] || left <= 2 then 0
    else 1 + Taken(src[1..], left - |EscapeByte(src[0])|)
  }

  /** What the escaper writes into a buffer of `cap` bytes, before the NUL. */
  function Escape(src: CString, cap: nat): CString {
    EscapeAll(src[..Taken(src, cap)])
  }

  /** A byte as a reader is to see it: control bytes read '?'. */
  function ShownByte(c: CChar): CChar {
    if c < 0x20 then QUESTION else c
  }

  function Shown(src: CString): (r: CString)
    ensures |r| == |src|
  {
    if src == [] then [] else [ShownByte(src[0])] + Shown(src[1..])
  }

  lemma {:induction false} ShownTake(src: CString, n: nat)
    requires n <= |src|
    ensures Shown(src[..n]) == Shown(src)[..n]
    decreases n
  {
    if n > 0 {
      assert src[..n][1..] == src[1..][..n - 1];
      ShownTake(src[1..], n - 1);
    }
  }

  lemma {:induction false} EscapeAllLast(src: CString, c: CChar)
    ensures EscapeAll(src + [c]) == EscapeAll(src) + EscapeByte(c)
    decreases |src|
  {
    if src == [] {
      assert (src + [c])[1..] == [];
    } else {
      assert (src + [c])[1..] == src[1..] + [c];
      EscapeAllLast(src[1..], c);
      assert (src + [c])[0] == src[0];
      assert EscapeAll(src + [c]) == EscapeByte(src[0]) + (EscapeAll(src[1..]) + EscapeByte(c));
    }
  }

  /** The loop never overruns its buffer, and stops short only for want of room. */
  lemma {:induction false} TakenFits(src: CString, left: int)
    requires left >= 1
    ensures |EscapeAll(src[..Taken(src, left)])| < left
    ensures Taken(src, left) < |src| ==> |EscapeAll(src[..Taken(src, left)])| + 2 >= left
    ensures forall j | 0 <= j < Taken(src, left) :: |EscapeAll(src[..j])| + 2 < left
    decreases |src|
  {
    if src != [] && left > 2 {
      var left' := left - |EscapeByte(src[0])|;
      TakenFits(src[1..], left');
      var k := Taken(src[1..], left');
      assert src[..k + 1][0] == src[0] && src[..k + 1][1..] == src[1..][..k];
      forall j | 0 <= j < k + 1 ensures |EscapeAll(src[..j])| + 2 < left {
        if j > 0 {
          assert src[..j][0] == src[0] && src[..j][1..] == src[1..][..j - 1];
          assert |EscapeAll(src[1..][..j - 1])| + 2 < left';
        }
      }
    }
  }

  /** All of the source is written exactly when the two-byte reserve still held before its last byte. */
  lemma WholeSourceIff(src: CString, cap: nat)
    requires cap >= 1 && src != []
    ensures Escape(src, cap) == EscapeAll(src) <==> |EscapeAll(src[..|src| - 1])| + 2 < cap
  {
    var n := |src| - 1;
    var k := Taken(src, cap);
    TakenFits(src, cap);
    assert src[..|src|] == src && src == src[..n] + [src[n]];
    EscapeAllLast(src[..n], src[n]);
    if k < |src| {
      EscapeShorter(src, k);
      LongerIsLonger(src, k, n);
    }
  }

  lemma {:induction false} LongerIsLonger(src: CString, i: nat, j: nat)
    requires i <= j <= |src|
    ensures |EscapeAll(src[..i])| <= |EscapeAll(src[..j])|
    decreases j - i
  {
    if i < j {
      LongerIsLonger(src, i, j - 1);
      assert src[..j] == src[..j - 1] + [src[j - 1]];
      EscapeAllLast(src[..j - 1], src[j - 1]);
    }
  }

  lemma EscapeShorter(src: CString, k: nat)
    requires k < |src|
    ensures |EscapeAll(src[..k])| < |EscapeAll(src)|
  {
    LongerIsLonger(src, k + 1, |src|);
    assert src[..|src|] == src && src[..k + 1] == src[..k] + [src[k]];
    EscapeAllLast(src[..k], src[k]);
  }

  /** After `ni` source bytes and `ei` bytes written, the rest of the loop goes on from there. */
  ghost predicate Escaping(src: CString, cap: nat, ni: nat, written: seq<byte>) {
    && ni <= |src| && |written| < cap
    && Taken(src, cap) == ni + Taken(src[ni..], cap - |written|)
    && written == EscapeAll(src[..ni])
  }

  lemma EscapingNext(src: CString, cap: nat, ni: nat, written: seq<byte>)
    requires Escaping(src, cap, ni, written) && ni < |src| && |written| + 2 < cap
    ensures Escaping(src, cap, ni + 1, written + EscapeByte(src[ni]))
  {
    assert src[ni..][0] == src[ni] && src[ni..][1..] == src[ni + 1..];
    assert src[..ni + 1] == src[..ni] + [src[ni]];
    EscapeAllLast(src[..ni], src[ni]);
  }

  /** `json_escape_into`: fills `dst`, ends it with a NUL, returns the length. */
  method EscapeInto(src: CString, dst: array<byte>) returns (ei: nat)
    modifies dst
    ensures dst.Length == 0 ==> ei == 0
    ensures dst.Length > 0 ==> ei < dst.Length && dst[ei] == 0 && dst[..ei] == Escape(src, dst.Length)
  {
    ei := 0;
    var ni := 0;
    if dst.Length == 0 { return; }
    assert Escaping(src, dst.Length, 0, []) by { assert src[0..] == src; }
    while ni < |src| && ei + 2 < dst.Length
      invariant ei < dst.Length && Escaping(src, dst.Length, ni, dst[..ei])
    {
      EscapingNext(src, dst.Length, ni, dst[..ei]);
      var c := src[ni];
      if c == QUOTE || c == BACKSLASH {
        Put(dst, ei, [BACKSLASH, c]);
        ei := ei + 2;
      } else if c < 0x20 {
        Put(dst, ei, [QUESTION]);
        ei := ei + 1;
      } else {
        Put(dst, ei, [c]);
        ei := ei + 1;
      }
      ni := ni + 1;
    }
    dst[ei] := 0;
  }

  // ---- UTF-8

  /** A code point. */
  type Cp = n: nat | n < 0x11_0000

  predicate IsScalar(cp: nat) {
    cp < 0x11_0000 && !(0xD800 <= cp <= 0xDFFF)
  }

  function Utf8Len(cp: Cp): (n: nat)
    ensures 1 <= n <= 4
  {
    if cp < 0x80 then 1 else if cp < 0x800 then 2 else if cp < 0x1_0000 then 3 else 4
  }

  /** Byte `i` of the UTF-8 form: the lead byte's prefix and top bits, or six bits of the rest. */
  function Utf8Byte(cp: Cp, i: nat): byte
    requires i < Utf8Len(cp)
  {
    if i > 0 then 0x80 + Above(cp, Utf8Len(cp) - 1 - i) % 64
    else if cp < 0x80 then cp
    else if cp < 0x800 then 0xC0 + cp / 64
    else if cp < 0x1_0000 then 0xE0 + cp / 4096
    else 0xF0 + cp / 262144
  }

  /** `cp` without its low `k` groups of six bits, for `k` up to 2. */
  function Above(cp: Cp, k: nat): nat {
    if k == 0 then cp else if k == 1 then cp / 64 else cp / 4096
  }

  /** `cj_put_cp` when there is room: one code point as UTF-8. */
  function Utf8(cp: Cp): (r: seq<byte>)
    ensures 1 <= |r| <= 4
  {
    seq(Utf8Len(cp), i requires 0 <= i < Utf8Len(cp) => Utf8Byte(cp, i))
  }

  predicate Tail(b: byte) {
    0x80 <= b <= 0xBF
  }

  /** The bits a byte carries above its prefix. */
  function Bits(b: byte, prefix: int): int {
    b - prefix
  }

  /** The scalar a byte string encodes, by the grammar in section 4 of RFC 3629; None for anything
      else, over-long forms and surrogates included. */
  function Utf8Scalar(b: seq<byte>): Option<nat> {
    if |b| == 1 && b[0] < 0x80 then Some(b[0])
    else if |b| == 2 && 0xC2 <= b[0] <= 0xDF && Tail(b[1]) then Some(Bits(b[0], 0xC0) * 64 + Bits(b[1], 0x80))
    else if |b| == 3 && 0xE0 <= b[0] <= 0xEF && Tail(b[1]) && Tail(b[2])
      && (b[0] == 0xE0 ==> b[1] >= 0xA0) && (b[0] == 0xED ==> b[1] <= 0x9F)
    then Some(Bits(b[0], 0xE0) * 4096 + Bits(b[1], 0x80) * 64 + Bits(b[2], 0x80))
    else if |b| == 4 && 0xF0 <= b[0] <= 0xF4 && Tail(b[1]) && Tail(b[2]) && Tail(b[3])
      && (b[0] == 0xF0 ==> b[1] >= 0x90) && (b[0] == 0xF4 ==> b[1] <= 0x8F)
    then Some(Bits(b[0], 0xF0) * 262144 + Bits(b[1], 0x80) * 4096 + Bits(b[2], 0x80) * 64 + Bits(b[3], 0x80))
    else None
  }

  lemma SixBits(cp: nat)
    ensures cp == cp / 64 * 64 + cp % 64
    ensures cp / 64 == cp / 4096 * 64 + cp / 64 % 64
    ensures cp / 4096 == cp / 262144 * 64 + cp / 4096 % 64
  {
    assert cp / 64 / 64 == cp / 4096;
    assert cp / 4096 / 64 == cp / 262144;
  }

  /** Every scalar is written as its one valid UTF-8 form. */
  lemma Utf8IsRfc3629(cp: nat)
    requires IsScalar(cp)
    ensures Utf8Scalar(Utf8(cp)) == Some(cp)
  {
    SixBits(cp);
  }

  // ---- cj_decode

  function Hex(c: CChar): int {
    if 48 <= c <= 57 then c - 48
    else if 97 <= c <= 102 then c - 97 + 10
    else if 65 <= c <= 70 then c - 65 + 10
    else -1
  }

  predicate IsHex(c: CChar) {
    Hex(c) >= 0
  }

  /** `cj_hex4`: four hex digits at the front of `p`, or None. */
  function Hex4(p: CString): (v: Option<nat>)
    ensures v.Some? ==> |p| >= 4 && v.value < 0x1_0000
  {
    if |p| >= 4 && IsHex(p[0]) && IsHex(p[1]) && IsHex(p[2]) && IsHex(p[3])
    then Some(((Hex(p[0]) * 16 + Hex(p[1])) * 16 + Hex(p[2])) * 16 + Hex(p[3]))
    else None
  }

  predicate High(v: nat) {
    0xD800 <= v <= 0xDBFF
  }

  predicate Low(v: nat) {
    0xDC00 <= v <= 0xDFFF
  }

  function Joined(hi: nat, lo: nat): Cp
    requires High(hi) && Low(lo)
  {
    0x1_0000 + (hi - 0xD800) * 1024 + (lo - 0xDC00)
  }

  /** A code unit on its own: NUL and lone surrogates become U+FFFD. */
  function Alone(v: nat): Cp
    requires v < 0x1_0000
  {
    if v == 0 || 0xD800 <= v <= 0xDFFF then 0xFFFD else v
  }

  /** The `\u` escape at the front of `p`: its code point and length, surrogate pairs joined. */
  function UnicodeEscape(p: CString): (r: Option<(Cp, nat)>)
    ensures r.Some? ==> 6 <= r.value.1 <= |p|
  {
    if |p| < 2 || p[0] != '\\' as int || p[1] != 'u' as int then None
    else match Hex4(p[2..])
      case None => None
      case Some(v) =>
        if High(v) && |p| >= 8 && p[6] == '\\' as int && p[7] == 'u' as int then
          match Hex4(p[8..])
          case Some(lo) => if Low(lo) then Some((Joined(v, lo), 12)) else Some((Alone(v), 6))
          case None => Some((Alone(v), 6))
        else Some((Alone(v), 6))
  }

  /** Any other escape: the control letters, or the letter itself. */
  function ShortEscape(e: CChar): CChar {
    match e
    case 110 => 10 case 116 => 9 case 114 => 13 case 98 => 8 case 102 => 12
    case _ => e
  }

  /** What one turn of the loop decodes at the front of `p`, and how much of `p` it takes. */
  function Piece(p: CString): (r: (seq<byte>, nat))
    requires p != []
    ensures 1 <= |r.0| <= 4 && 1 <= r.1 <= |p|
  {
    if p[0] != '\\' as int || |p| == 1 then ([p[0]], 1)
    else match UnicodeEscape(p)
      case Some((cp, used)) => (Utf8(cp), used)
      case None => ([ShortEscape(p[1])], 2)
  }

  /** All pieces up to the closing quote or the end. */
  function Pieces(p: CString): (ps: seq<seq<byte>>)
    ensures forall i | 0 <= i < |ps| :: 1 <= |ps[i]| <= 4
    decreases |p|
  {
    if p == [] || p[0] == '"' as int then []
    else
      var (bytes, used) := Piece(p);
      [bytes] + Pieces(p[used..])
  }

  /** As many pieces from the front as fit in `room` bytes, none in part. */
  function Fit(ps: seq<seq<byte>>, room: nat): (r: seq<byte>)
    ensures |r| <= room
    decreases |ps|
  {
    if ps == [] || |ps[0]| > room then [] else ps[0] + Fit(ps[1..], room - |ps[0]|)
  }

  /** What the decoder writes when `room` bytes are free before the NUL. */
  function Decode(p: CString, room: nat): seq<byte> {
    Fit(Pieces(p), room)
  }

  /** Writes `bytes` at `i`, as `cj_put_cp` and the plain stores do. */
  method Put(out: array<byte>, i: nat, bytes: seq<byte>)
    requires i + |bytes| <= out.Length
    modifies out
    ensures out[..i + |bytes|] == old(out[..i]) + bytes
  {
    var k := 0;
    while k < |bytes|
      invariant k <= |bytes| && out[..i + k] == old(out[..i]) + bytes[..k]
    {
      out[i + k] := bytes[k];
      k := k + 1;
    }
  }

  lemma PiecesFront(p: CString, at: nat)
    requires at < |p| && p[at] != QUOTE
    ensures var (bytes, used) := Piece(p[at..]);
            Pieces(p[at..]) == [bytes] + Pieces(p[at + used..])
  {
    var (bytes, used) := Piece(p[at..]);
    assert p[at..][used..] == p[at + used..];
  }

  lemma FitFront(done: seq<byte>, bytes: seq<byte>, ps: seq<seq<byte>>, room: nat)
    requires |done| <= room
    ensures |done + bytes| > room ==> Fit([bytes] + ps, room - |done|) == []
    ensures |done + bytes| <= room ==>
              done + Fit([bytes] + ps, room - |done|) == done + bytes + Fit(ps, room - |done + bytes|)
  {
    if |done + bytes| <= room {
      assert ([bytes] + ps)[1..] == ps;
      Assoc(done, bytes, Fit(ps, room - |done + bytes|));
    }
  }

  /** A piece has at least one byte, so a full buffer takes none. */
  lemma NoRoom(ps: seq<seq<byte>>)
    requires forall i | 0 <= i < |ps| :: 1 <= |ps[i]|
    ensures Fit(ps, 0) == []
  {
  }

  /** With `done` decoded from the text before `at`, the rest makes it `all`. */
  ghost predicate Resumes(p: CString, at: nat, done: seq<byte>, room: nat, all: seq<byte>) {
    at <= |p| && |done| <= room && done + Fit(Pieces(p[at..]), room - |done|) == all
  }

  lemma ResumesNext(p: CString, at: nat, done: seq<byte>, room: nat, all: seq<byte>)
    requires Resumes(p, at, done, room, all) && at < |p| && p[at] != QUOTE
    ensures var (bytes, used) := Piece(p[at..]);
            && (|done + bytes| > room ==> all == done)
            && (|done + bytes| <= room ==> Resumes(p, at + used, done + bytes, room, all))
  {
    hide Fit, Pieces, Piece;
    var (bytes, used) := Piece(p[at..]);
    PiecesFront(p, at);
    FitFront(done, bytes, Pieces(p[at + used..]), room);
  }

  lemma ResumesEnd(p: CString, at: nat, done: seq<byte>, room: nat, all: seq<byte>)
    requires Resumes(p, at, done, room, all) && (at == |p| || p[at] == QUOTE || |done| == room)
    ensures all == done
  {
    if |done| == room {
      NoRoom(Pieces(p[at..]));
    }
  }

  /** The branches of the loop body: a plain byte, a `\u` escape, or a short escape. */
  method PieceAt(p: CString, at: nat) returns (bytes: seq<byte>, used: nat)
    requires at < |p|
    ensures (bytes, used) == Piece(p[at..])
  {
    if p[at] != BACKSLASH || at + 1 == |p| {
      return [p[at]], 1;
    }
    var u := UnicodeEscape(p[at..]);
    if u.Some? {
      return Utf8(u.value.0), u.value.1;
    }
    return [ShortEscape(p[at + 1])], 2;
  }

  /** `cj_decode`: the string at `p` unescaped into `out`, NUL-terminated. */
  method DecodeInto(p: CString, out: array<byte>) returns (i: nat)
    requires out.Length > 0
    modifies out
    ensures i < out.Length && out[i] == 0 && out[..i] == Decode(p, out.Length - 1)
  {
    hide Fit, Pieces, Piece;
    i := 0;
    var at, room := 0, out.Length - 1;
    ghost var done: seq<byte>, all := [], Decode(p, room);
    assert p[0..] == p;
    while at < |p| && p[at] != QUOTE && i < room
      invariant i <= room && out[..i] == done && Resumes(p, at, done, room, all)
      decreases |p| - at
    {
      var bytes, used := PieceAt(p, at);
      ResumesNext(p, at, done, room, all);
      if |bytes| > room - i {
        out[i] := 0;
        return; // no room for it whole
      }
      Put(out, i, bytes);
      done := done + bytes;
      at, i := at + used, i + |bytes|;
    }
    ResumesEnd(p, at, done, room, all);
    out[i] := 0;
  }

  // ---- Decoding undoes escaping

  /** `rest` is where a string ends: its closing quote or the end of the text. */
  predicate Closed(rest: CString) {
    rest == [] || rest[0] == QUOTE
  }

  /** The escaped text with what follows it. */
  function EscapeThen(src: CString, rest: CString): CString {
    if src == [] then rest else EscapeByte(src[0]) + EscapeThen(src[1..], rest)
  }

  lemma {:induction false} EscapeThenIs(src: CString, rest: CString)
    ensures EscapeThen(src, rest) == EscapeAll(src) + rest
    decreases |src|
  {
    if src != [] {
      EscapeThenIs(src[1..], rest);
      Assoc(EscapeByte(src[0]), EscapeAll(src[1..]), rest);
    }
  }

  /** One piece per byte. */
  function Singles(t: CString): seq<seq<byte>> {
    if t == [] then [] else [[t[0]]] + Singles(t[1..])
  }

  lemma {:induction false} FitSingles(t: CString, room: nat)
    ensures Fit(Singles(t), room) == t[..if room < |t| then room else |t|]
    decreases |t|
  {
    if t != [] {
      assert Singles(t)[1..] == Singles(t[1..]);
      if room > 0 {
        FitSingles(t[1..], room - 1);
      }
    }
  }

  /** The escaped text is one piece per source byte, worth the byte as shown. */
  lemma {:induction false} EscapedPieces(src: CString, rest: CString)
    requires Closed(rest)
    ensures Pieces(EscapeThen(src, rest)) == Singles(Shown(src))
    decreases |src|
  {
    if src != [] {
      EscapedPiece(src[0], EscapeThen(src[1..], rest));
      EscapedPieces(src[1..], rest);
      assert Shown(src)[1..] == Shown(src[1..]);
    }
  }

  /** Whatever the source and the reader's buffer, the escaped text reads back as the shown source,
      cut only at the reader's capacity. */
  lemma DecodeUndoesEscapeAll(src: CString, rest: CString, room: nat)
    requires Closed(rest)
    ensures Decode(EscapeAll(src) + rest, room) == Shown(src)[..if room < |src| then room else |src|]
  {
    EscapeThenIs(src, rest);
    EscapedPieces(src, rest);
    FitSingles(Shown(src), room);
  }

  /** An escaped byte is one piece, worth the byte as shown. */
  lemma EscapedPiece(c: CChar, tail: CString)
    ensures var p := EscapeByte(c) + tail;
            && p[0] != QUOTE
            && Piece(p) == ([ShownByte(c)], |EscapeByte(c)|)
            && p[|EscapeByte(c)|..] == tail
  {
  }

  /** The same through the bounded escaper: a prefix of the shown source, never cut inside an escape,
      and the whole of it when both buffers allow. */
  lemma DecodeUndoesEscape(src: CString, cap: nat, rest: CString, room: nat)
    requires Closed(rest)
    ensures var k := Taken(src, cap);
            Decode(Escape(src, cap) + rest, room) == Shown(src)[..if room < k then room else k]
    ensures cap > 2 * |src| + 1 && room >= |src| ==> Decode(Escape(src, cap) + rest, room) == Shown(src)
  {
    var k := Taken(src, cap);
    DecodeUndoesEscapeAll(src[..k], rest, room);
    ShownTake(src, k);
    assert Shown(src)[..k][..if room < k then room else k] == Shown(src)[..if room < k then room else k];
    if cap > 2 * |src| + 1 {
      TakenFits(src, cap);
      AtMostDouble(src[..k]);
      assert k == |src|;
      assert Shown(src)[..|src|] == Shown(src);
    }
  }

  lemma {:induction false} AtMostDouble(src: CString)
    ensures |EscapeAll(src)| <= 2 * |src|
    decreases |src|
  {
    if src != [] {
      AtMostDouble(src[1..]);
    }
  }

  // ---- \u escapes

  /** A string written wholly in `\u` escapes, each with its own four hex digits, and what
      follows it. */
  function PrintUnits(digits: seq<CString>, rest: CString): CString {
    if digits == [] then rest else [BACKSLASH, LETTER_U] + digits[0] + PrintUnits(digits[1..], rest)
  }

  ghost predicate AllHex4(digits: seq<CString>) {
    forall i | 0 <= i < |digits| :: |digits[i]| == 4 && Hex4(digits[i]).Some?
  }

  function Unit(digits: CString): (v: nat)
    requires Hex4(digits).Some?
    ensures v < 0x1_0000
  {
    Hex4(digits).value
  }

  /** UTF-16 read with replacement: pairs joined, NUL and lone surrogates U+FFFD. */
  function Scalars(digits: seq<CString>): seq<Cp>
    requires AllHex4(digits)
    decreases |digits|
  {
    if digits == [] then []
    else if Paired(digits)
    then [Joined(Unit(digits[0]), Unit(digits[1]))] + Scalars(digits[2..])
    else [Alone(Unit(digits[0]))] + Scalars(digits[1..])
  }

  function Utf8Each(cps: seq<Cp>): (ps: seq<seq<byte>>)
    ensures |ps| == |cps|
  {
    if cps == [] then [] else [Utf8(cps[0])] + Utf8Each(cps[1..])
  }

  lemma {:induction false} ScalarsInRange(digits: seq<CString>)
    requires AllHex4(digits)
    ensures forall i | 0 <= i < |Scalars(digits)| :: IsScalar(Scalars(digits)[i]) && Scalars(digits)[i] != 0
    decreases |digits|
  {
    if digits != [] {
      if |digits| > 1 { ScalarsInRange(digits[2..]); }
      ScalarsInRange(digits[1..]);
    }
  }

  /** No `\u` escape follows. */
  predicate NoUnit(rest: CString) {
    |rest| < 2 || rest[0] != BACKSLASH || rest[1] != LETTER_U
  }

  /** For any sequence of `\u` escapes, in either case of hex digit, the pieces are the UTF-8
      characters of the UTF-16 text with lone surrogates and NULs replaced. */
  lemma {:induction false} UnitPieces(digits: seq<CString>, rest: CString)
    requires AllHex4(digits) && Closed(rest)
    ensures Pieces(PrintUnits(digits, rest)) == Utf8Each(Scalars(digits))
    decreases |digits|
  {
    if digits != [] {
      FrontEscape(digits, rest);
      var n := if Paired(digits) then 2 else 1;
      UnitPieces(digits[n..], rest);
      assert Scalars(digits)[1..] == Scalars(digits[n..]);
    }
  }

  /** So the decoder writes as many of those characters as fit, whole, and all are non-zero scalars. */
  lemma DecodeUnits(digits: seq<CString>, rest: CString, room: nat)
    requires AllHex4(digits) && Closed(rest)
    ensures Decode(PrintUnits(digits, rest), room) == Fit(Utf8Each(Scalars(digits)), room)
    ensures forall i | 0 <= i < |Scalars(digits)| :: IsScalar(Scalars(digits)[i]) && Scalars(digits)[i] != 0
  {
    UnitPieces(digits, rest);
    ScalarsInRange(digits);
  }

  /** The first two units make a surrogate pair. */
  predicate Paired(digits: seq<CString>)
    requires AllHex4(digits)
  {
    |digits| > 1 && High(Unit(digits[0])) && Low(Unit(digits[1]))
  }

  /** The escape in front of such a text is its first unit, or its first two when they pair up. */
  lemma FrontEscape(digits: seq<CString>, rest: CString)
    requires AllHex4(digits) && digits != [] && NoUnit(rest)
    ensures var p := PrintUnits(digits, rest);
            var n := if Paired(digits) then 2 else 1;
            && p != [] && p[0] == BACKSLASH
            && Piece(p) == (Utf8(Scalars(digits)[0]), 6 * n)
            && p[6 * n..] == PrintUnits(digits[n..], rest)
  {
    FrontDigits(digits, rest);
    if |digits| > 1 {
      FrontDigits(digits[1..], rest);
      assert digits[1..][0] == digits[1] && digits[1..][1..] == digits[2..];
      SecondEscape(PrintUnits(digits, rest));
    }
  }

  lemma FrontDigits(digits: seq<CString>, rest: CString)
    requires AllHex4(digits) && digits != []
    ensures var p := PrintUnits(digits, rest);
            && |p| >= 6 && p[0] == BACKSLASH && p[1] == LETTER_U
            && Hex4(p[2..]) == Hex4(digits[0])
            && p[6..] == PrintUnits(digits[1..], rest)
  {
    HexAt(digits[0], PrintUnits(digits[1..], rest), PrintUnits(digits, rest));
  }

  lemma SecondEscape(p: CString)
    requires |p| >= 12
    ensures p[6..][2..] == p[8..] && p[6..][6..] == p[12..] && p[6] == p[6..][0] && p[7] == p[6..][1]
  {
  }

  lemma HexAt(d: CString, after: CString, p: CString)
    requires |d| == 4 && Hex4(d).Some? && |p| >= 6 && p == [BACKSLASH, LETTER_U] + d + after
    ensures Hex4(p[2..]) == Hex4(d) && p[6..] == after
  {
    assert p[2..] == d + after;
  }

  // ---- Every scalar can be so written

  function HexDigit(n: nat): CChar
    requires n < 16
  {
    if n < 10 then 48 + n else 97 + n - 10
  }

  function HexOf(u: nat): CString
    requires u < 0x1_0000
  {
    [HexDigit(u / 4096), HexDigit(u / 256 % 16), HexDigit(u / 16 % 16), HexDigit(u % 16)]
  }

  lemma HexOfReadsBack(u: nat)
    requires u < 0x1_0000
    ensures Hex4(HexOf(u)) == Some(u)
  {
    assert u / 16 == u / 256 * 16 + u / 16 % 16 by { assert u / 16 / 16 == u / 256; }
    assert u / 256 == u / 4096 * 16 + u / 256 % 16 by { assert u / 256 / 16 == u / 4096; }
  }

  function HighOf(cp: Cp): (v: nat)
    requires cp >= 0x1_0000
    ensures High(v)
  {
    0xD800 + (cp - 0x1_0000) / 1024
  }

  function LowOf(cp: Cp): (v: nat)
    requires cp >= 0x1_0000
    ensures Low(v) && Joined(HighOf(cp), v) == cp
  {
    0xDC00 + (cp - 0x1_0000) % 1024
  }

  /** A scalar's UTF-16 form, as escapes. */
  function EscapesOf(cp: nat): seq<CString>
    requires IsScalar(cp)
  {
    if cp < 0x1_0000 then [HexOf(cp)]
    else [HexOf(HighOf(cp)), HexOf(LowOf(cp))]
  }

  /** Every non-zero scalar written as `\u` escapes decodes to its UTF-8. */
  lemma ScalarRoundTrip(cp: nat, rest: CString, room: nat)
    requires IsScalar(cp) && cp != 0 && Closed(rest) && room >= 4
    ensures Decode(PrintUnits(EscapesOf(cp), rest), room) == Utf8(cp)
    ensures Utf8Scalar(Decode(PrintUnits(EscapesOf(cp), rest), room)) == Some(cp)
  {
    EscapesMean(cp);
    DecodeUnits(EscapesOf(cp), rest, room);
    OneFits(cp, room);
    Utf8IsRfc3629(cp);
  }

  lemma EscapesMean(cp: nat)
    requires IsScalar(cp) && cp != 0
    ensures AllHex4(EscapesOf(cp)) && Scalars(EscapesOf(cp)) == [cp]
  {
    if cp < 0x1_0000 {
      HexOfReadsBack(cp);
    } else {
      HexOfReadsBack(HighOf(cp));
      HexOfReadsBack(LowOf(cp));
      PairMeans(HexOf(HighOf(cp)), HexOf(LowOf(cp)));
    }
  }

  lemma PairMeans(a: CString, b: CString)
    requires |a| == 4 && |b| == 4 && Hex4(a).Some? && Hex4(b).Some? && High(Unit(a)) && Low(Unit(b))
    ensures AllHex4([a, b]) && Scalars([a, b]) == [Joined(Unit(a), Unit(b))]
  {
    assert [a, b][2..] == [];
  }

  lemma OneFits(cp: Cp, room: nat)
    requires room >= 4
    ensures Fit(Utf8Each([cp]), room) == Utf8(cp)
  {
    assert Utf8Each([cp]) == [Utf8(cp)];
  }
}
