/** JSON strings as section 7 of RFC 8259 writes them, part by part, and what the decoder
    (payload/include/cheats_json.h) makes of each. */
module JsonStrings {
  import opened Bytes
  import opened Wrappers
  import opened JsonText

  // ---- Escapes by the letter

  /** The two-character escapes of section 7 of RFC 8259, and what they stand for. */
  const SHORT: seq<(char, int)> :=
    [('"', 0x22), ('\\', 0x5C), ('/', 0x2F), ('b', 0x08), ('f', 0x0C), ('n', 0x0A), ('r', 0x0D), ('t', 0x09)]

  lemma ShortEscapesMean(i: nat, rest: CString)
    requires i < |SHORT|
    ensures SHORT[i].0 as int < 128 && 0 < SHORT[i].1 < 128
    ensures var p := [BACKSLASH, SHORT[i].0 as int] + rest;
            Piece(p) == ([SHORT[i].1], 2) && p[2..] == rest
  {
    var p := [BACKSLASH, SHORT[i].0 as int] + rest;
    assert p[1] == SHORT[i].0 as int;
    assert SHORT[i].0 in {'"', '\\', '/', 'b', 'f', 'n', 'r', 't'};
  }

  /** An unknown letter after a backslash stands for itself; so does a `u` without four hex digits after it. */
  lemma UnknownEscapesMean(c: CChar, rest: CString)
    requires c !in {'b' as int, 'f' as int, 'n' as int, 'r' as int, 't' as int}
    requires c == 'u' as int ==> Hex4(rest) == None
    ensures Piece([BACKSLASH, c] + rest) == ([c], 2)
  {
    var p := [BACKSLASH, c] + rest;
    assert p[0] == BACKSLASH && p[1] == c && p[2..] == rest;
  }

  // ---- Hex digits

  lemma HexDigitsMean(c: CChar)
    ensures Hex(c) ==
              if '0' as int <= c <= '9' as int then c - '0' as int
              else if 'A' as int <= c <= 'F' as int then c - 'A' as int + 10
              else if 'a' as int <= c <= 'f' as int then c - 'a' as int + 10
              else -1
  {
  }

  /** Four hex digits of either case, most significant first. */
  lemma FourDigitsMean(d: CString, rest: CString)
    requires |d| == 4 && forall i | 0 <= i < 4 :: Hex(d[i]) >= 0
    ensures Hex4(d + rest) == Some(Hex(d[0]) * 0x1000 + Hex(d[1]) * 0x100 + Hex(d[2]) * 0x10 + Hex(d[3]))
  {
    var p := d + rest;
    assert forall i | 0 <= i < 4 :: p[i] == d[i];
  }

  /** A surrogate by itself, and a zero, is written as U+FFFD: EF BF BD. */
  lemma ReplacedMeans(d: CString, rest: CString)
    requires |d| == 4 && Hex4(d).Some? && NoUnit(rest)
    requires Hex4(d).value == 0 || 0xD800 <= Hex4(d).value <= 0xDFFF
    ensures Piece([BACKSLASH, LETTER_U] + d + rest) == ([0xEF, 0xBF, 0xBD], 6)
  {
    var none: seq<CString> := [];
    assert [d][1..] == none && PrintUnits(none, rest) == rest;
    assert PrintUnits([d], rest) == [BACKSLASH, LETTER_U] + d + rest;
    FrontEscape([d], rest);
    assert Scalars([d])[0] == 0xFFFD;
    Replacement();
  }

  /** So is a high surrogate before a `\u` without four hex digits, which is then read by itself. */
  lemma BrokenPairMeans(d: CString, rest: CString)
    requires |d| == 4 && Hex4(d).Some? && 0xD800 <= Hex4(d).value <= 0xDBFF
    requires Hex4(rest) == None
    ensures Piece([BACKSLASH, LETTER_U] + d + ([BACKSLASH, LETTER_U] + rest)) == ([0xEF, 0xBF, 0xBD], 6)
  {
    var p := [BACKSLASH, LETTER_U] + d + ([BACKSLASH, LETTER_U] + rest);
    assert p[0] == BACKSLASH && p[1] == LETTER_U && p[6] == BACKSLASH && p[7] == LETTER_U;
    assert forall i | 0 <= i < 4 :: p[2..][i] == d[i];
    assert p[8..] == rest;
    Replacement();
  }

  lemma Replacement()
    ensures Utf8(0xFFFD) == [0xEF, 0xBF, 0xBD]
  {
    assert Utf8Len(0xFFFD) == 3;
  }

  // ---- Whole strings

  datatype Part = Plain(c: CChar) | Escape(i: nat) | Units(digits: seq<CString>)

  /** A byte that needs no escape; one of the eight short ones; or a run of `\u` escapes. */
  ghost predicate ValidPart(p: Part) {
    match p
    case Plain(c) => c != QUOTE && c != BACKSLASH
    case Escape(i) => i < |SHORT|
    case Units(digits) => digits != [] && AllHex4(digits)
  }

  /** Every run of `\u` escapes is as long as it is. */
  ghost predicate ValidParts(parts: seq<Part>) {
    && (forall i | 0 <= i < |parts| :: ValidPart(parts[i]))
    && (forall i, j | 0 <= i < j < |parts| && j == i + 1 :: !(parts[i].Units? && parts[j].Units?))
  }

  function Written(parts: seq<Part>, rest: CString): CString
    requires forall i | 0 <= i < |parts| :: parts[i].Escape? ==> parts[i].i < |SHORT|
  {
    if parts == [] then rest
    else
      var more := Written(parts[1..], rest);
      match parts[0]
      case Plain(c) => [c] + more
      case Escape(i) => [BACKSLASH, LetterOf(i)] + more
      case Units(digits) => PrintUnits(digits, more)
  }

  function LetterOf(i: nat): CChar
    requires i < |SHORT|
  {
    ShortEscapesMean(i, []);
    SHORT[i].0 as int
  }

  function ByteOf(i: nat): CChar
    requires i < |SHORT|
  {
    ShortEscapesMean(i, []);
    SHORT[i].1
  }

  /** What the parts stand for, as UTF-8, piece by piece. */
  ghost function Meaning(parts: seq<Part>): seq<seq<byte>>
    requires forall i | 0 <= i < |parts| :: ValidPart(parts[i])
  {
    if parts == [] then []
    else
      assert ValidPart(parts[0]);
      (match parts[0]
       case Plain(c) => [[c]]
       case Escape(i) => [[ByteOf(i)]]
       case Units(digits) => Utf8Each(Scalars(digits))) + Meaning(parts[1..])
  }

  lemma {:induction false} UnitsThen(digits: seq<CString>, rest: CString)
    requires AllHex4(digits) && NoUnit(rest)
    ensures Pieces(PrintUnits(digits, rest)) == Utf8Each(Scalars(digits)) + Pieces(rest)
    decreases |digits|
  {
    if digits == [] {
      assert [] + Pieces(rest) == Pieces(rest);
    } else {
      FrontEscape(digits, rest);
      var n := if Paired(digits) then 2 else 1;
      UnitsThen(digits[n..], rest);
      var cps := Scalars(digits);
      assert cps[1..] == Scalars(digits[n..]);
      Assoc([Utf8(cps[0])], Utf8Each(cps[1..]), Pieces(rest));
    }
  }

  lemma NoUnitAfter(parts: seq<Part>, rest: CString)
    requires ValidParts(parts) && Closed(rest) && (parts != [] ==> !parts[0].Units?)
    ensures NoUnit(Written(parts, rest))
  {
    if parts != [] && parts[0].Escape? {
      ShortEscapesMean(parts[0].i, []);
      assert SHORT[parts[0].i].0 in {'"', '\\', '/', 'b', 'f', 'n', 'r', 't'};
    }
  }

  lemma FrontPiece(p: CString, bytes: seq<byte>, used: nat)
    requires p != [] && p[0] != QUOTE && Piece(p) == (bytes, used)
    ensures Pieces(p) == [bytes] + Pieces(p[used..])
  {
  }

  /** Every JSON string decodes to what its parts stand for: the bytes that need no escape, the eight short escapes,
      and runs of `\u` escapes as UTF-8. */
  lemma {:induction false} DecodesEveryString(parts: seq<Part>, rest: CString)
    requires ValidParts(parts) && Closed(rest)
    ensures Pieces(Written(parts, rest)) == Meaning(parts)
    decreases |parts|
  {
    if parts != [] {
      var tail := parts[1..];
      var more := Written(tail, rest);
      forall i, j | 0 <= i < j < |tail| && j == i + 1 ensures !(tail[i].Units? && tail[j].Units?) {
        assert tail[i] == parts[i + 1] && tail[j] == parts[j + 1];
      }
      assert ValidParts(tail);
      DecodesEveryString(tail, rest);
      assert ValidPart(parts[0]);
      match parts[0]
      case Plain(c) =>
        var p := [c] + more;
        assert p[1..] == more;
        FrontPiece(p, [c], 1);
      case Escape(i) =>
        ShortEscapesMean(i, more);
        FrontPiece([BACKSLASH, LetterOf(i)] + more, [ByteOf(i)], 2);
      case Units(digits) =>
        if tail != [] {
          assert tail[0] == parts[1];
        }
        NoUnitAfter(tail, rest);
        UnitsThen(digits, more);
    }
  }

  // ---- UTF-8, both ways

  /** The strict decoder takes exactly the encodings of scalars. */
  lemma Utf8ScalarIff(b: seq<byte>, cp: nat)
    ensures Utf8Scalar(b) == Some(cp) <==> IsScalar(cp) && b == Utf8(cp)
  {
    if IsScalar(cp) {
      Utf8IsRfc3629(cp);
    }
    if Utf8Scalar(b) == Some(cp) {
      ScalarIsInRange(b);
      Utf8OfScalar(b);
    }
  }

  lemma ScalarIsInRange(b: seq<byte>)
    requires Utf8Scalar(b).Some?
    ensures IsScalar(Utf8Scalar(b).value)
  {
  }

  lemma Utf8OfScalar(b: seq<byte>)
    requires Utf8Scalar(b).Some? && IsScalar(Utf8Scalar(b).value)
    ensures Utf8(Utf8Scalar(b).value) == b
  {
    if |b| == 2 {
      Utf8OfTwo(b);
    } else if |b| == 3 {
      Utf8OfThree(b);
    } else if |b| == 4 {
      Utf8OfFour(b);
    }
  }

  lemma Digits64(a: nat, x: nat, y: nat, z: nat)
    requires x < 64 && y < 64 && z < 64
    ensures (a * 64 + x) / 64 == a && (a * 64 + x) % 64 == x
    ensures (a * 4096 + x * 64 + y) / 4096 == a
    ensures (a * 4096 + x * 64 + y) / 64 == a * 64 + x && (a * 4096 + x * 64 + y) % 64 == y
    ensures (a * 262144 + x * 4096 + y * 64 + z) / 262144 == a
    ensures (a * 262144 + x * 4096 + y * 64 + z) / 4096 == a * 64 + x
    ensures (a * 262144 + x * 4096 + y * 64 + z) / 64 == a * 4096 + x * 64 + y
    ensures (a * 262144 + x * 4096 + y * 64 + z) % 64 == z
  {
  }

  lemma Utf8OfTwo(b: seq<byte>)
    requires |b| == 2 && Utf8Scalar(b).Some? && IsScalar(Utf8Scalar(b).value)
    ensures Utf8(Utf8Scalar(b).value) == b
  {
    Digits64(b[0] - 0xC0, b[1] - 0x80, 0, 0);
  }

  lemma Utf8OfThree(b: seq<byte>)
    requires |b| == 3 && Utf8Scalar(b).Some? && IsScalar(Utf8Scalar(b).value)
    ensures Utf8(Utf8Scalar(b).value) == b
  {
    Digits64(b[0] - 0xE0, b[1] - 0x80, b[2] - 0x80, 0);
    Digits64(b[0] - 0xE0, b[1] - 0x80, 0, 0);
  }

  lemma Utf8OfFour(b: seq<byte>)
    requires |b| == 4 && Utf8Scalar(b).Some? && IsScalar(Utf8Scalar(b).value)
    ensures Utf8(Utf8Scalar(b).value) == b
  {
    var cp := Utf8Scalar(b).value;
    Digits64(b[0] - 0xF0, b[1] - 0x80, b[2] - 0x80, b[3] - 0x80);
    Digits64(b[0] - 0xF0, b[1] - 0x80, b[2] - 0x80, 0);
    Digits64(b[0] - 0xF0, b[1] - 0x80, 0, 0);
    assert Utf8Len(cp) == 4;
  }
}
