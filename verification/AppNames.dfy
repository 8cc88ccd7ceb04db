/** Which texts of an app.db row are title ids, and which can be a title's name, by the way they are written
    (payload/include/appdb_scan.h). */
module AppNames {
  import opened Bytes
  import opened Wrappers
  import opened AppDbScan

  // ---- How texts are written

  predicate Capital(c: byte) {
    'A' as int <= c <= 'Z' as int
  }

  predicate Numeral(c: byte) {
    '0' as int <= c <= '9' as int
  }

  predicate Capitals(s: seq<byte>, n: nat) {
    |s| == n && forall i | 0 <= i < n :: Capital(s[i])
  }

  predicate Numerals(s: seq<byte>, n: nat) {
    |s| == n && forall i | 0 <= i < n :: Numeral(s[i])
  }

  function Ascii(s: string): (b: seq<byte>)
    requires forall i | 0 <= i < |s| :: s[i] < 128 as char
    ensures |b| == |s| && forall i | 0 <= i < |s| :: b[i] == s[i] as int
  {
    seq(|s|, i requires 0 <= i < |s| => s[i] as int)
  }

  const SLASH: seq<byte> := ['/' as int]
  const HYPHEN: seq<byte> := ['-' as int]

  /** Four capitals and five digits: PPSA19534. */
  ghost predicate TitleIdText(s: seq<byte>) {
    exists letters, digits :: s == letters + digits && Capitals(letters, 4) && Numerals(digits, 5)
  }

  /** Two capitals, four digits, a dash and anything: UP0006-PPSA19534_00-BATTLEFIELD6000. */
  ghost predicate ContentIdText(s: seq<byte>) {
    exists letters, digits, rest ::
      s == letters + (digits + (HYPHEN + rest)) && Capitals(letters, 2) && Numerals(digits, 4)
  }

  ghost predicate PathText(s: seq<byte>) {
    exists rest :: s == SLASH + rest
  }

  ghost predicate HandleText(s: seq<byte>) {
    exists rest :: s == Ascii("cid:") + rest
  }

  /** Four digits, a dash, a month, a dash, and at least a day: 2026-01-31T12:00. */
  ghost predicate DateText(s: seq<byte>) {
    exists year, month, rest ::
      && s == year + (HYPHEN + (month + (HYPHEN + rest)))
      && Numerals(year, 4) && |month| == 2 && |rest| >= 2
  }

  /** One of those, or less than two bytes. */
  ghost predicate OtherShape(s: seq<byte>) {
    |s| < 2 || PathText(s) || HandleText(s) || TitleIdText(s) || DateText(s) || ContentIdText(s)
  }

  // ---- The code's tests are those

  lemma TitleIdIff(s: seq<byte>)
    ensures IsTitleId(s) <==> TitleIdText(s)
  {
    if IsTitleId(s) {
      var letters, digits := s[..4], s[4..];
      assert s == letters + digits;
      forall i | 0 <= i < 5 ensures Numeral(digits[i]) {
        assert digits[i] == s[i + 4];
      }
    }
    if letters, digits :| s == letters + digits && Capitals(letters, 4) && Numerals(digits, 5) {
      forall i | 4 <= i < 9 ensures Digit(s[i]) {
        assert s[i] == digits[i - 4];
      }
    }
  }

  predicate ContentIdTest(s: seq<byte>) {
    |s| >= 7 && Upper(s[0]) && Upper(s[1]) && (forall i | 2 <= i < 6 :: Digit(s[i])) && s[6] == 45
  }

  lemma ContentIdIff(s: seq<byte>)
    ensures ContentIdTest(s) <==> ContentIdText(s)
  {
    if ContentIdTest(s) {
      var letters, digits, rest := s[..2], s[2..6], s[7..];
      forall i | 0 <= i < 4 ensures Numeral(digits[i]) {
        assert digits[i] == s[i + 2];
      }
      assert Capitals(letters, 2) && Numerals(digits, 4);
      assert s == letters + (digits + (HYPHEN + rest));
    }
    if ContentIdText(s) {
      var letters, digits, rest :|
        s == letters + (digits + (HYPHEN + rest)) && Capitals(letters, 2) && Numerals(digits, 4);
      forall i | 2 <= i < 6 ensures Digit(s[i]) {
        assert s[i] == digits[i - 2];
      }
      assert s[0] == letters[0] && s[1] == letters[1] && s[6] == HYPHEN[0];
    }
  }

  predicate DateTest(s: seq<byte>) {
    |s| >= 10 && s[4] == 45 && s[7] == 45 && forall i | 0 <= i < 4 :: Digit(s[i])
  }

  lemma DateIff(s: seq<byte>)
    ensures DateTest(s) <==> DateText(s)
  {
    if DateTest(s) {
      DateIsWritten(s);
    }
    if DateText(s) {
      var year, month, rest :|
        s == year + (HYPHEN + (month + (HYPHEN + rest))) && Numerals(year, 4) && |month| == 2 && |rest| >= 2;
      WrittenDate(year, month, rest);
    }
  }

  lemma DateIsWritten(s: seq<byte>)
    requires DateTest(s)
    ensures DateText(s)
  {
    var year, month, rest := s[..4], s[5..7], s[8..];
    assert Numerals(year, 4);
    assert s == year + (HYPHEN + (month + (HYPHEN + rest)));
  }

  lemma WrittenDate(year: seq<byte>, month: seq<byte>, rest: seq<byte>)
    requires Numerals(year, 4) && |month| == 2 && |rest| >= 2
    ensures DateTest(year + (HYPHEN + (month + (HYPHEN + rest))))
  {
    var s := year + (HYPHEN + (month + (HYPHEN + rest)));
    assert s[4] == HYPHEN[0] && s[7] == HYPHEN[0];
    assert forall i | 0 <= i < 4 :: s[i] == year[i];
  }

  lemma PathIff(s: seq<byte>)
    ensures |s| >= 1 && s[0] == 47 <==> PathText(s)
  {
    if |s| >= 1 && s[0] == 47 {
      assert s == SLASH + s[1..];
    }
    if rest :| s == SLASH + rest {
      assert s[0] == 47;
    }
  }

  lemma HandleIff(s: seq<byte>)
    ensures |s| >= 4 && s[..4] == [99, 105, 100, 58] <==> HandleText(s)
  {
    var cid := Ascii("cid:");
    assert cid == [99, 105, 100, 58];
    if |s| >= 4 && s[..4] == cid {
      assert s == cid + s[4..];
    }
    if rest :| s == cid + rest {
      assert s[..4] == cid;
    }
  }

  /** The code passes over exactly the texts of those shapes. */
  lemma NotANameIff(s: seq<byte>)
    ensures IsNotAName(s) <==> OtherShape(s)
  {
    hide TitleIdText, ContentIdText, DateText, PathText, HandleText, IsTitleId;
    TitleIdIff(s);
    ContentIdIff(s);
    DateIff(s);
    PathIff(s);
    HandleIff(s);
  }

  // ---- Names of entries

  function Spaces(n: nat): (s: seq<byte>)
    ensures |s| == n
  {
    seq(n, _ => 0x20)
  }

  /** Padding is cut off, and nothing else. */
  lemma {:induction false} TrimsPadding(text: seq<byte>, n: nat)
    requires text == [] || text[|text| - 1] != 0x20
    ensures TrimSpaces(text + Spaces(n)) == text
    decreases n
  {
    if n == 0 {
      assert text + Spaces(0) == text;
    } else {
      assert (text + Spaces(n))[..|text| + n - 1] == text + Spaces(n - 1);
      TrimsPadding(text, n - 1);
    }
  }

  lemma {:induction false} TrimmedWas(s: seq<byte>) returns (n: nat)
    ensures s == TrimSpaces(s) + Spaces(n)
    decreases |s|
  {
    if s != [] && s[|s| - 1] == 0x20 {
      n := TrimmedWas(s[..|s| - 1]);
      assert s == s[..|s| - 1] + [0x20];
      assert Spaces(n) + [0x20] == Spaces(n + 1);
      Assoc(TrimSpaces(s), Spaces(n), [0x20]);
      n := n + 1;
    } else {
      n := 0;
      assert s + Spaces(0) == s;
    }
  }

  /** No entry is named by a path, a handle, a date or a content id. By a title id one is only when the row's first
      possible name is that id with padding after it. */
  lemma NoOtherShapeIsAName(cols: seq<seq<byte>>, idsOnly: bool)
    requires RowToEntry(cols, idsOnly).Some? && RowToEntry(cols, idsOnly).value.name != []
    ensures var name := RowToEntry(cols, idsOnly).value.name;
            && |name| >= 2 && !PathText(name) && !HandleText(name) && !DateText(name) && !ContentIdText(name)
            && (TitleIdText(name) ==> exists n: nat :: n > 0 && name + Spaces(n) in cols)
  {
    hide RowToEntry, PathText, HandleText, DateText, ContentIdText, TitleIdText, MayBeName, CleanText;
    var name := RowToEntry(cols, idsOnly).value.name;
    RowMeans(cols, idsOnly);
    RowsAreGood(cols, idsOnly);
    var i :| FirstSuch(cols, MayBeName, i) && name == TrimSpaces(cols[i]);
    var n := TrimmedWas(cols[i]);
    PossibleIsNoShape(cols[i]);
    ShapesStay(name, n);
    assert name + Spaces(0) == name;
    assert name + Spaces(n) in cols;
  }

  lemma PossibleIsNoShape(s: seq<byte>)
    requires MayBeName(s)
    ensures !OtherShape(s)
  {
    NotANameIff(s);
  }

  /** Those four shapes keep their shape with padding after them. */
  lemma ShapesStay(s: seq<byte>, n: nat)
    ensures PathText(s) ==> PathText(s + Spaces(n))
    ensures HandleText(s) ==> HandleText(s + Spaces(n))
    ensures DateText(s) ==> DateText(s + Spaces(n))
    ensures ContentIdText(s) ==> ContentIdText(s + Spaces(n))
  {
    hide PathText, HandleText, DateText, ContentIdText;
    var t := s + Spaces(n);
    PathIff(s);
    PathIff(t);
    HandleIff(s);
    HandleIff(t);
    DateIff(s);
    DateIff(t);
    ContentIdIff(s);
    ContentIdIff(t);
    if |s| >= 4 {
      assert t[..4] == s[..4];
    }
  }

  lemma {:induction false} FirstTitleIdIs(pre: seq<seq<byte>>, id: seq<byte>, post: seq<seq<byte>>)
    requires TitleIdText(id) && forall i | 0 <= i < |pre| :: !TitleIdText(pre[i])
    ensures FirstTitleId(pre + ([id] + post)) == Some(id)
    decreases |pre|
  {
    hide TitleIdText, IsTitleId;
    TitleIdIff(id);
    var all := pre + ([id] + post);
    if pre == [] {
      assert all[0] == id;
    } else {
      TitleIdIff(pre[0]);
      assert all[0] == pre[0] && all[1..] == pre[1..] + ([id] + post);
      FirstTitleIdIs(pre[1..], id, post);
    }
  }

  lemma {:induction false} FirstNameIs(pre: seq<seq<byte>>, padded: seq<byte>, post: seq<seq<byte>>)
    requires MayBeName(padded) && |TrimSpaces(padded)| >= 2 && forall i | 0 <= i < |pre| :: OtherShape(pre[i])
    ensures FirstName(pre + ([padded] + post)) == Some(TrimSpaces(padded))
    decreases |pre|
  {
    hide OtherShape, IsNotAName, CleanText;
    var all := pre + ([padded] + post);
    if pre == [] {
      assert all[0] == padded;
    } else {
      NotANameIff(pre[0]);
      assert all[0] == pre[0] && all[1..] == pre[1..] + ([padded] + post);
      FirstNameIs(pre[1..], padded, post);
    }
  }

  /** A row with a title id `id`, the first in it, and a printable text of no such shape before which only texts of
      such shapes stand, gives exactly that id and that text without its padding, whatever else the row has. */
  lemma RowIsIdAndName(cols: seq<seq<byte>>, id: seq<byte>, before: seq<seq<byte>>, afterId: seq<seq<byte>>,
                       text: seq<byte>, n: nat, noise: seq<seq<byte>>, rest: seq<seq<byte>>, idsOnly: bool)
    requires cols == before + ([id] + afterId) && TitleIdText(id)
    requires forall i | 0 <= i < |before| :: !TitleIdText(before[i])
    requires cols == noise + ([text + Spaces(n)] + rest) && forall i | 0 <= i < |noise| :: OtherShape(noise[i])
    requires 2 <= |text| && |text| + n < 256 && text[|text| - 1] != 0x20
    requires PrintableText(text + Spaces(n)) && !OtherShape(text + Spaces(n))
    ensures RowToEntry(cols, idsOnly) == Some(Entry(id, text))
  {
    hide OtherShape, TitleIdText, IsNotAName, CleanText, PrintableText, FirstTitleId, FirstName;
    var padded := text + Spaces(n);
    PrintableIffClean(padded);
    NotANameIff(padded);
    TrimsPadding(text, n);
    FirstTitleIdIs(before, id, afterId);
    FirstNameIs(noise, padded, rest);
  }

  /** A text of 256 bytes or more, an empty one and one that is not clean are passed over too. */
  lemma PassedOver(s: seq<byte>)
    requires |s| >= 256 || s == [] || !CleanText(s) || OtherShape(s)
    ensures !MayBeName(s)
  {
    hide OtherShape, IsNotAName;
    NotANameIff(s);
  }

  /** A title id with a space after it is taken for a name. */
  lemma PaddedIdIsAName(id: seq<byte>, idsOnly: bool)
    requires TitleIdText(id)
    ensures RowToEntry([id, id + Spaces(1)], idsOnly) == Some(Entry(id, id))
  {
    hide RowToEntry, OtherShape, TitleIdText;
    TitleIdIff(id);
    var padded := id + Spaces(1);
    var cols, none: seq<seq<byte>> := [id, padded], [];
    PaddedIdIsOther(id);
    assert cols == none + ([id] + [padded]) && cols == [id] + ([padded] + none);
    RowIsIdAndName(cols, id, none, [padded], id, 1, [id], none, idsOnly);
  }

  lemma PaddedIdIsOther(id: seq<byte>)
    requires IsTitleId(id)
    ensures PrintableText(id + Spaces(1)) && !OtherShape(id + Spaces(1)) && OtherShape(id)
    ensures id[8] != 0x20
  {
    hide OtherShape, PrintableText;
    var s := id + Spaces(1);
    NotANameIff(id);
    NotANameIff(s);
    AsciiIsPrintable(s);
    PrintableIffClean(s);
    assert forall i | 0 <= i < 9 :: s[i] == id[i];
    assert s[..4] == id[..4];
    assert id[..4][0] == id[0];
  }

  lemma {:induction false} AsciiIsPrintable(s: seq<byte>)
    requires forall i | 0 <= i < |s| :: 0x20 <= s[i] < 0x7F
    ensures CleanText(s) && NoBad(s)
    decreases |s|
  {
    if s != [] {
      AsciiIsPrintable(s[1..]);
    }
  }

  /** Two capitals, four digits, a dash: a content id among the texts is passed over for the title's name. */
  lemma ContentIdIsPassedOver(id: seq<byte>, content: seq<byte>, text: seq<byte>, idsOnly: bool)
    requires TitleIdText(id) && ContentIdText(content) && 2 <= |text| < 256 && text[|text| - 1] != 0x20
    requires PrintableText(text) && !OtherShape(text)
    ensures RowToEntry([content, id, text], idsOnly) == Some(Entry(id, text))
  {
    hide RowToEntry, OtherShape, TitleIdText, ContentIdText, PrintableText;
    var none: seq<seq<byte>> := [];
    var cols := [content, id, text];
    ShapesAre(content, id);
    assert text + Spaces(0) == text;
    assert cols == [content] + ([id] + [text]) && cols == [content, id] + ([text] + none);
    RowIsIdAndName(cols, id, [content], [text], text, 0, [content, id], none, idsOnly);
  }

  lemma ShapesAre(content: seq<byte>, id: seq<byte>)
    requires ContentIdText(content) && TitleIdText(id)
    ensures OtherShape(content) && OtherShape(id) && !TitleIdText(content)
  {
    hide TitleIdText, ContentIdText;
    ContentIdIff(content);
    TitleIdIff(content);
  }
}
