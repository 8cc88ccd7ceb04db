/** The outermost-key lookup of a cheat file (payload/include/cheats_json.h): a lenient text scan that
    must agree with the JSON it is given when the text is JSON. A C pointer into the text is the
    text's suffix from there. */
module CheatsJson {
  import opened Bytes
  import opened JsonText
  import opened Wrappers

  predicate IsWs(c: CChar) {
    c == ' ' as int || c == '\t' as int || c == '\r' as int || c == '\n' as int
  }

  predicate Opens(c: CChar) {
    c == '{' as int || c == '[' as int
  }

  predicate Closes(c: CChar) {
    c == '}' as int || c == ']' as int
  }

  // ---- What the code computes

  /** `cj_skip_string`, from just past the opening quote: what follows the closing one. */
  function SkipString(p: CString): (r: Option<CString>)
    ensures r.Some? ==> |r.value| < |p|
    decreases |p|
  {
    if p == [] then None
    else if p[0] == '\\' as int then if |p| == 1 then None else SkipString(p[2..])
    else if p[0] == '"' as int then Some(p[1..])
    else SkipString(p[1..])
  }

  function SkipWs(p: CString): (r: CString)
    ensures |r| <= |p|
  {
    if p != [] && IsWs(p[0]) then SkipWs(p[1..]) else p
  }

  /** After a string at depth 1 with the wanted text: the value it is the key of, if it is one. */
  function ValueAfter(p: CString): Option<CString> {
    var q := SkipWs(p);
    if q != [] && q[0] == ':' as int then Some(SkipWs(q[1..])) else None
  }

  /** The scan of `cj_top_value` from `p` at nesting `depth`. */
  function Scan(p: CString, depth: int, key: CString): Option<CString>
    decreases |p|
  {
    if p == [] then None
    else if p[0] == '"' as int then
      match SkipString(p[1..])
      case None => None
      case Some(end) =>
        var body := p[1..|p| - |end| - 1];
        if depth == 1 && body == key && ValueAfter(end).Some? then ValueAfter(end)
        else Scan(end, depth, key)
    else if Opens(p[0]) then Scan(p[1..], depth + 1, key)
    else if Closes(p[0]) then if depth - 1 <= 0 then None else Scan(p[1..], depth - 1, key)
    else Scan(p[1..], depth, key)
  }

  // ---- The C function

  method SkipStringAt(json: CString, p: nat) returns (end: Option<nat>)
    requires p < |json| && json[p] == QUOTE
    ensures SkipString(json[p + 1..]) == if end.Some? && end.value <= |json| then Some(json[end.value..]) else None
    ensures end.Some? ==> p + 1 < end.value <= |json|
  {
    var i := p + 1;
    while i < |json|
      invariant p < i <= |json|
      invariant SkipString(json[i..]) == SkipString(json[p + 1..])
    {
      assert json[i..][1..] == json[i + 1..];
      if json[i] == BACKSLASH {
        if i + 1 == |json| { return None; }
        assert json[i..][2..] == json[i + 2..];
        i := i + 2;
      } else if json[i] == QUOTE {
        return Some(i + 1);
      } else {
        i := i + 1;
      }
    }
    return None;
  }

  method SkipWsAt(json: CString, p: nat) returns (q: nat)
    requires p <= |json|
    ensures p <= q <= |json| && json[q..] == SkipWs(json[p..])
  {
    q := p;
    while q < |json| && IsWs(json[q])
      invariant p <= q <= |json| && SkipWs(json[q..]) == SkipWs(json[p..])
    {
      assert json[q..][1..] == json[q + 1..];
      q := q + 1;
    }
  }

  /** The index found, as the suffix that starts there. */
  ghost function From(json: CString, at: Option<nat>): Option<CString> {
    if at.Some? && at.value <= |json| then Some(json[at.value..]) else None
  }

  /** `cj_top_value`: where the value of the outermost member `key` starts. */
  method TopValue(json: CString, key: CString) returns (at: Option<nat>)
    ensures at.Some? ==> at.value <= |json|
    ensures From(json, at) == Scan(json, 0, key)
  {
    var p, depth := 0, 0;
    assert json[0..] == json;
    while p < |json|
      invariant p <= |json| && Scan(json[p..], depth, key) == Scan(json, 0, key)
      decreases |json| - p
    {
      ghost var rest := json[p..];
      assert rest[1..] == json[p + 1..];
      if json[p] == QUOTE {
        var end := SkipStringAt(json, p);
        if end == None { return None; }
        assert rest[1..|rest| - |json[end.value..]| - 1] == json[p + 1..end.value - 1];
        if depth == 1 && json[p + 1..end.value - 1] == key {
          var q := SkipWsAt(json, end.value);
          if q < |json| && json[q] == COLON {
            assert json[q..][1..] == json[q + 1..];
            var v := SkipWsAt(json, q + 1);
            return Some(v);
          }
        }
        p := end.value;
        continue;
      }
      if Opens(json[p]) {
        depth := depth + 1;
      } else if Closes(json[p]) {
        depth := depth - 1;
        if depth <= 0 { return None; }
      }
      p := p + 1;
    }
    return None;
  }

  // ---- JSON, with the whitespace its text carries (sections 2 and 7 of RFC 8259)

  const OPEN_ARR: CChar := 0x5B
  const OPEN_OBJ: CChar := 0x7B
  const CLOSE_ARR: CChar := 0x5D
  const CLOSE_OBJ: CChar := 0x7D
  const COLON: CChar := 0x3A
  const WHITESPACE: set<CChar> := {0x20, 0x09, 0x0A, 0x0D}

  /** A value as written. A string is kept raw, between its quotes; a number or a literal is a run of
      plain bytes. Elements and members carry the whitespace around their tokens. */
  datatype Json =
    | Str(raw: CString)
    | Plain(token: CString)
    | Arr(open: CString, items: seq<Item>)
    | Obj(open: CString, members: seq<Member>)

  /** An array element and the whitespace on either side of it. */
  datatype Item = Item(before: CString, value: Json, after: CString)

  /** A member: its raw key, and the whitespace around key, colon and value. */
  datatype Member = Member(before: CString, key: CString, mid: CString, sep: CString, value: Json, after: CString)

  /** The text of `v` with `rest` after it. */
  function Print(v: Json, rest: CString): CString
    decreases v
  {
    match v
    case Str(raw) => [QUOTE] + (raw + ([QUOTE] + rest))
    case Plain(token) => token + rest
    case Arr(open, items) => [OPEN_ARR] + (open + PrintItems(items, [CLOSE_ARR] + rest))
    case Obj(open, members) => [OPEN_OBJ] + (open + PrintMembers(members, [CLOSE_OBJ] + rest))
  }

  function PrintItems(items: seq<Item>, rest: CString): CString
    decreases items
  {
    if items == [] then rest
    else
      var more := if |items| > 1 then [COMMA] + PrintItems(items[1..], rest) else rest;
      items[0].before + Print(items[0].value, items[0].after + more)
  }

  function PrintMembers(members: seq<Member>, rest: CString): CString
    decreases members
  {
    if members == [] then rest
    else
      var more := if |members| > 1 then [COMMA] + PrintMembers(members[1..], rest) else rest;
      PrintMember(members[0], more)
  }

  function PrintMember(m: Member, rest: CString): CString
    decreases m
  {
    m.before + ([QUOTE] + (m.key + ([QUOTE] + AfterKey(m, rest))))
  }

  function AfterKey(m: Member, rest: CString): CString
    decreases m, 0
  {
    m.mid + ([COLON] + (m.sep + Print(m.value, m.after + rest)))
  }

  // ---- Well-formed text

  ghost predicate AllWs(s: CString) {
    forall i | 0 <= i < |s| :: s[i] in WHITESPACE
  }

  /** A string body: no bare quote, and every backslash followed by a byte. */
  ghost predicate RawString(s: CString)
    decreases |s|
  {
    if s == [] then true
    else if s[0] == BACKSLASH then |s| > 1 && RawString(s[2..])
    else s[0] != QUOTE && RawString(s[1..])
  }

  /** Bytes the scan walks over without a change of depth. */
  predicate Inert(c: CChar) {
    c !in {QUOTE, OPEN_ARR, OPEN_OBJ, CLOSE_ARR, CLOSE_OBJ}
  }

  ghost predicate AllInert(s: CString) {
    forall i | 0 <= i < |s| :: Inert(s[i])
  }

  ghost predicate WellFormed(v: Json)
    decreases v
  {
    match v
    case Str(raw) => RawString(raw)
    case Plain(token) => token != [] && token[0] !in WHITESPACE && AllInert(token)
    case Arr(open, items) => AllWs(open) && forall i | 0 <= i < |items| :: ItemWellFormed(items[i])
    case Obj(open, members) => AllWs(open) && forall i | 0 <= i < |members| :: MemberWellFormed(members[i])
  }

  ghost predicate ItemWellFormed(i: Item)
    decreases i
  {
    AllWs(i.before) && WellFormed(i.value) && AllWs(i.after)
  }

  ghost predicate MemberWellFormed(m: Member)
    decreases m
  {
    && AllWs(m.before) && RawString(m.key) && AllWs(m.mid)
    && AllWs(m.sep) && WellFormed(m.value) && AllWs(m.after)
  }

  // ---- The scan over well-formed text

  lemma {:induction false} SkipsRaw(raw: CString, rest: CString)
    requires RawString(raw)
    ensures SkipString(raw + ([QUOTE] + rest)) == Some(rest)
    decreases |raw|
  {
    var p := raw + ([QUOTE] + rest);
    if raw == [] {
      assert p[1..] == rest;
    } else if raw[0] == BACKSLASH {
      assert p[2..] == raw[2..] + ([QUOTE] + rest);
      SkipsRaw(raw[2..], rest);
    } else {
      assert p[1..] == raw[1..] + ([QUOTE] + rest);
      SkipsRaw(raw[1..], rest);
    }
  }

  /** A string that is not closed is not skipped, and the scan ends there with nothing. */
  lemma {:induction false} UnclosedIsNotSkipped(raw: CString)
    requires RawString(raw)
    ensures SkipString(raw) == None
    decreases |raw|
  {
    if raw != [] {
      UnclosedIsNotSkipped(if raw[0] == BACKSLASH then raw[2..] else raw[1..]);
    }
  }

  lemma UnclosedFindsNothing(raw: CString, depth: int, key: CString)
    requires RawString(raw)
    ensures Scan([QUOTE] + raw, depth, key) == None
  {
    UnclosedIsNotSkipped(raw);
    assert ([QUOTE] + raw)[1..] == raw;
  }

  lemma {:induction false} SkipsWs(ws: CString, rest: CString)
    requires AllWs(ws) && (rest == [] || !IsWs(rest[0]))
    ensures SkipWs(ws + rest) == rest
    decreases |ws|
  {
    if ws == [] {
      assert ws + rest == rest;
    } else {
      assert (ws + rest)[1..] == ws[1..] + rest;
      SkipsWs(ws[1..], rest);
    }
  }

  lemma {:induction false} ScansInert(s: CString, rest: CString, depth: int, key: CString)
    requires AllInert(s)
    ensures Scan(s + rest, depth, key) == Scan(rest, depth, key)
    decreases |s|
  {
    if s == [] {
      assert s + rest == rest;
    } else {
      assert (s + rest)[1..] == s[1..] + rest;
      ScansInert(s[1..], rest, depth, key);
    }
  }

  /** One byte that is a bracket, colon or comma. */
  lemma ScansOne(c: CChar, rest: CString, depth: int, key: CString)
    requires c != QUOTE
    ensures Scan([c] + rest, depth, key) ==
              if Opens(c) then Scan(rest, depth + 1, key)
              else if Closes(c) then if depth <= 1 then None else Scan(rest, depth - 1, key)
              else Scan(rest, depth, key)
  {
    assert ([c] + rest)[1..] == rest;
  }

  lemma ScansString(raw: CString, rest: CString, depth: int, key: CString)
    requires RawString(raw)
    ensures Scan([QUOTE] + (raw + ([QUOTE] + rest)), depth, key) ==
              if depth == 1 && raw == key && ValueAfter(rest).Some? then ValueAfter(rest)
              else Scan(rest, depth, key)
  {
    var p := [QUOTE] + (raw + ([QUOTE] + rest));
    assert p[1..] == raw + ([QUOTE] + rest);
    SkipsRaw(raw, rest);
    assert p[1..|p| - |rest| - 1] == raw;
  }

  /** A value inside the outermost object leaves the scan as it was; one that is a string at depth 1
      must not look like a key. */
  lemma {:induction false} ScansValue(v: Json, rest: CString, depth: int, key: CString)
    requires WellFormed(v) && depth >= 1
    requires depth == 1 && v.Str? ==> ValueAfter(rest).None?
    ensures Scan(Print(v, rest), depth, key) == Scan(rest, depth, key)
    decreases v
  {
    match v
    case Str(raw) => ScansString(raw, rest, depth, key);
    case Plain(token) => ScansInert(token, rest, depth, key);
    case Arr(open, items) =>
      var inner := PrintItems(items, [CLOSE_ARR] + rest);
      ScansOne(OPEN_ARR, open + inner, depth, key);
      ScansInert(open, inner, depth + 1, key);
      ScansItems(items, [CLOSE_ARR] + rest, depth + 1, key);
      ScansOne(CLOSE_ARR, rest, depth + 1, key);
    case Obj(open, members) =>
      var inner := PrintMembers(members, [CLOSE_OBJ] + rest);
      ScansOne(OPEN_OBJ, open + inner, depth, key);
      ScansInert(open, inner, depth + 1, key);
      ScansMembers(members, [CLOSE_OBJ] + rest, depth + 1, key);
      ScansOne(CLOSE_OBJ, rest, depth + 1, key);
  }

  lemma {:induction false} ScansItems(items: seq<Item>, rest: CString, depth: int, key: CString)
    requires (forall i | 0 <= i < |items| :: ItemWellFormed(items[i])) && depth >= 2
    ensures Scan(PrintItems(items, rest), depth, key) == Scan(rest, depth, key)
    decreases items
  {
    if items != [] {
      var it := items[0];
      var tail := PrintItems(items[1..], rest);
      var more := if |items| > 1 then [COMMA] + tail else rest;
      ScansInert(it.before, Print(it.value, it.after + more), depth, key);
      ScansValue(it.value, it.after + more, depth, key);
      ScansInert(it.after, more, depth, key);
      if |items| > 1 {
        ScansOne(COMMA, tail, depth, key);
        ScansItems(items[1..], rest, depth, key);
      }
    }
  }

  /** Members of a nested object are never taken for the outermost one's. */
  lemma {:induction false} ScansMembers(members: seq<Member>, rest: CString, depth: int, key: CString)
    requires (forall i | 0 <= i < |members| :: MemberWellFormed(members[i])) && depth >= 2
    ensures Scan(PrintMembers(members, rest), depth, key) == Scan(rest, depth, key)
    decreases members
  {
    if members != [] {
      var tail := PrintMembers(members[1..], rest);
      var more := if |members| > 1 then [COMMA] + tail else rest;
      ScansMember(members[0], more, depth, key);
      if |members| > 1 {
        ScansOne(COMMA, tail, depth, key);
        ScansMembers(members[1..], rest, depth, key);
      }
    }
  }

  /** A member whose key is not the one wanted, or that is nested, is walked over. */
  lemma {:induction false} ScansMember(m: Member, rest: CString, depth: int, key: CString)
    requires MemberWellFormed(m) && depth >= 1
    requires depth == 1 ==> m.key != key && ValueAfter(m.after + rest).None?
    ensures Scan(PrintMember(m, rest), depth, key) == Scan(rest, depth, key)
    decreases m
  {
    var body := Print(m.value, m.after + rest);
    var after := AfterKey(m, rest);
    ScansInert(m.before, [QUOTE] + (m.key + ([QUOTE] + after)), depth, key);
    ScansString(m.key, after, depth, key);
    ScansInert(m.mid, [COLON] + (m.sep + body), depth, key);
    ScansOne(COLON, m.sep + body, depth, key);
    ScansInert(m.sep, body, depth, key);
    ScansValue(m.value, m.after + rest, depth, key);
    ScansInert(m.after, rest, depth, key);
  }

  lemma NotWsFirst(v: Json, rest: CString)
    requires WellFormed(v)
    ensures Print(v, rest) != [] && !IsWs(Print(v, rest)[0])
  {
  }

  /** From just past a key, the lookup lands on the value's first byte. */
  lemma FindsValue(m: Member, rest: CString)
    requires MemberWellFormed(m)
    ensures ValueAfter(AfterKey(m, rest)) == Some(Print(m.value, m.after + rest))
  {
    var body := Print(m.value, m.after + rest);
    var q := [COLON] + (m.sep + body);
    SkipsWs(m.mid, q);
    assert q[1..] == m.sep + body;
    NotWsFirst(m.value, m.after + rest);
    SkipsWs(m.sep, body);
  }

  /** A value is followed by a comma or a closing brace, never by a colon. */
  lemma NoColonAfter(after: CString, rest: CString)
    requires AllWs(after) && rest != [] && (rest[0] == COMMA || rest[0] == CLOSE_OBJ)
    ensures ValueAfter(after + rest).None?
  {
    SkipsWs(after, rest);
  }

  /** The first member with the wanted raw key. */
  function FirstWith(members: seq<Member>, key: CString): (at: Option<nat>)
    ensures at.Some? ==> at.value < |members| && members[at.value].key == key
                         && forall j | 0 <= j < at.value :: members[j].key != key
    ensures at.None? ==> forall j | 0 <= j < |members| :: members[j].key != key
  {
    if members == [] then None
    else if members[0].key == key then Some(0)
    else match FirstWith(members[1..], key)
      case None => None
      case Some(k) =>
        assert forall j | 0 < j < k + 1 :: members[j] == members[1..][j - 1];
        Some(k + 1)
  }

  /** The text from the value of member `i` on. */
  function FromValue(members: seq<Member>, i: nat, rest: CString): CString
    requires i < |members|
  {
    var more := if i + 1 < |members| then [COMMA] + PrintMembers(members[i + 1..], rest) else rest;
    Print(members[i].value, members[i].after + more)
  }

  lemma {:induction false} TopMembers(members: seq<Member>, tail: CString, key: CString)
    requires forall i | 0 <= i < |members| :: MemberWellFormed(members[i])
    ensures var rest := [CLOSE_OBJ] + tail;
            Scan(PrintMembers(members, rest), 1, key) ==
              match FirstWith(members, key)
              case None => None
              case Some(i) => Some(FromValue(members, i, rest))
    decreases |members|
  {
    var rest := [CLOSE_OBJ] + tail;
    if members == [] {
      ScansOne(CLOSE_OBJ, tail, 1, key);
    } else {
      var m := members[0];
      var others := PrintMembers(members[1..], rest);
      var more := if |members| > 1 then [COMMA] + others else rest;
      if m.key == key {
        ScansInert(m.before, [QUOTE] + (m.key + ([QUOTE] + AfterKey(m, more))), 1, key);
        ScansString(m.key, AfterKey(m, more), 1, key);
        FindsValue(m, more);
      } else {
        NoColonAfter(m.after, more);
        ScansMember(m, more, 1, key);
        TopMembers(members[1..], tail, key);
        if |members| > 1 {
          ScansOne(COMMA, others, 1, key);
          TopShift(members, rest, key);
        } else {
          ScansOne(CLOSE_OBJ, tail, 1, key);
        }
      }
    }
  }

  lemma TopShift(members: seq<Member>, rest: CString, key: CString)
    requires |members| > 1 && members[0].key != key
    ensures FirstWith(members[1..], key).Some? ==>
              var i := FirstWith(members[1..], key).value;
              && FirstWith(members, key) == Some(i + 1)
              && FromValue(members, i + 1, rest) == FromValue(members[1..], i, rest)
  {
    if FirstWith(members[1..], key).Some? {
      var i := FirstWith(members[1..], key).value;
      assert members[1..][i + 1..] == members[i + 2..];
    }
  }

  /** For every object, whatever its whitespace and nesting, whatever bytes precede it (a byte-order
      mark) and whatever follows: the lookup returns the first byte of the value of the first outermost
      member with that raw key, and nothing when there is none. */
  lemma TopValueIsFirstMember(prefix: CString, open: CString, members: seq<Member>, tail: CString, key: CString)
    requires AllInert(prefix) && WellFormed(Obj(open, members))
    ensures Scan(prefix + Print(Obj(open, members), tail), 0, key) ==
              match FirstWith(members, key)
              case None => None
              case Some(i) => Some(FromValue(members, i, [CLOSE_OBJ] + tail))
  {
    var inner := PrintMembers(members, [CLOSE_OBJ] + tail);
    ScansInert(prefix, Print(Obj(open, members), tail), 0, key);
    ScansOne(OPEN_OBJ, open + inner, 0, key);
    ScansInert(open, inner, 1, key);
    TopMembers(members, tail, key);
  }

  // ---- With the decoder

  lemma {:induction false} EscapedIsRaw(src: CString)
    ensures RawString(EscapeAll(src))
    decreases |src|
  {
    if src != [] {
      EscapedIsRaw(src[1..]);
      var s := EscapeAll(src);
      assert s[|EscapeByte(src[0])|..] == EscapeAll(src[1..]);
    }
  }

  /** A name written by the escaper into an outermost member is what the lookup and the decoder give
      back, up to the reader's buffer; a cheat's own member of the same key cannot stand in for it. */
  lemma NameComesBack(prefix: CString, open: CString, members: seq<Member>, tail: CString,
                      key: CString, name: CString, room: nat)
    requires AllInert(prefix) && WellFormed(Obj(open, members))
    requires FirstWith(members, key).Some? && members[FirstWith(members, key).value].value == Str(EscapeAll(name))
    ensures var at := Scan(prefix + Print(Obj(open, members), tail), 0, key);
            at.Some? && QuotesName(at.value, name, room)
  {
    TopValueIsFirstMember(prefix, open, members, tail, key);
    DecodesFromValue(members, FirstWith(members, key).value, [CLOSE_OBJ] + tail, name, room);
  }

  /** `text` starts with a quoted string that decodes to the shown `name`. */
  ghost predicate QuotesName(text: CString, name: CString, room: nat) {
    && text != [] && text[0] == QUOTE
    && Decode(text[1..], room) == Shown(name)[..if room < |name| then room else |name|]
  }

  lemma DecodesFromValue(members: seq<Member>, i: nat, rest: CString, name: CString, room: nat)
    requires i < |members| && members[i].value == Str(EscapeAll(name))
    ensures QuotesName(FromValue(members, i, rest), name, room)
  {
    var more := if i + 1 < |members| then [COMMA] + PrintMembers(members[i + 1..], rest) else rest;
    DecodesQuoted(name, members[i].after + more, room);
  }

  lemma DecodesQuoted(name: CString, rest: CString, room: nat)
    ensures QuotesName(Print(Str(EscapeAll(name)), rest), name, room)
  {
    var text := Print(Str(EscapeAll(name)), rest);
    assert text[1..] == EscapeAll(name) + ([QUOTE] + rest);
    DecodeUndoesEscapeAll(name, [QUOTE] + rest, room);
  }
}
