/** The generated AVA1 message codecs (payload/gen/ava1_app_gen.c), driven by the message's schema as
    their generator is. Integers are little endian; a `str` has a u16 length, `bytes` and messages in a
    list a u32 length; a reader that runs out stays in error. */
module Ava1 {
  import opened Bytes
  import opened Wrappers

  datatype Error = Truncated | TrailingBytes | DuplicateExtension

  datatype Result<T> = Ok(value: T) | Err(error: Error)

  // ---- Integers

  /** An integer of `w` bytes off the front. */
  function TakeUint(buf: seq<byte>, w: nat): (r: Option<(nat, seq<byte>)>)
    ensures r.Some? ==> |r.value.1| == |buf| - w
  {
    if |buf| < w then None else Some((FromLE(buf[..w]), buf[w..]))
  }

  function TakeBytes(buf: seq<byte>, n: nat): (r: Option<(seq<byte>, seq<byte>)>)
    ensures r.Some? ==> |r.value.0| == n && |r.value.1| == |buf| - n
  {
    if |buf| < n then None else Some((buf[..n], buf[n..]))
  }

  lemma TakesUint(n: nat, w: nat, rest: seq<byte>)
    requires n < Pow256(w)
    ensures TakeUint(LE(n, w) + rest, w) == Some((n, rest))
  {
    ReadsBackLE(n, w);
    assert (LE(n, w) + rest)[..w] == LE(n, w);
  }

  lemma TakesBytes(b: seq<byte>, rest: seq<byte>)
    ensures TakeBytes(b + rest, |b|) == Some((b, rest))
  {
  }

  // ---- Fields

  datatype FieldType = U8 | U16 | U32 | U64 | StrField | BytesField

  datatype Value = Num(n: nat) | Blob(b: seq<byte>)

  /** The width of an integer field, or of a string's length. */
  function Width(t: FieldType): nat {
    match t
    case U8 => 1 case U16 => 2 case U32 => 4 case U64 => 8
    case StrField => 2 case BytesField => 4
  }

  predicate IsBlob(t: FieldType) {
    t.StrField? || t.BytesField?
  }

  predicate Fits(t: FieldType, v: Value) {
    if IsBlob(t) then v.Blob? && |v.b| < Pow256(Width(t)) else v.Num? && v.n < Pow256(Width(t))
  }

  /** A field's bytes, with `rest` after them. */
  function PutField(t: FieldType, v: Value, rest: seq<byte>): seq<byte>
    requires Fits(t, v)
  {
    match v
    case Num(n) => LE(n, Width(t)) + rest
    case Blob(b) => LE(|b|, Width(t)) + (b + rest)
  }

  function TakeField(t: FieldType, buf: seq<byte>): (r: Option<(Value, seq<byte>)>)
    ensures r.Some? ==> Fits(t, r.value.0) && |r.value.1| < |buf|
  {
    match TakeUint(buf, Width(t))
    case None => None
    case Some((n, rest)) =>
      FitsLE(buf[..Width(t)]);
      if !IsBlob(t) then Some((Num(n), rest))
      else match TakeBytes(rest, n)
        case None => None
        case Some((b, rest')) => Some((Blob(b), rest'))
  }

  lemma TakesField(t: FieldType, v: Value, rest: seq<byte>)
    requires Fits(t, v)
    ensures TakeField(t, PutField(t, v, rest)) == Some((v, rest))
  {
    match v
    case Num(n) => TakesUint(n, Width(t), rest);
    case Blob(b) =>
      TakesUint(|b|, Width(t), b + rest);
      TakesBytes(b, rest);
  }

  ghost predicate AllFit(types: seq<FieldType>, vals: seq<Value>) {
    |vals| == |types| && forall i | 0 <= i < |types| :: Fits(types[i], vals[i])
  }

  function PutFields(types: seq<FieldType>, vals: seq<Value>, rest: seq<byte>): seq<byte>
    requires AllFit(types, vals)
  {
    if types == [] then rest
    else PutField(types[0], vals[0], PutFields(types[1..], vals[1..], rest))
  }

  function TakeFields(types: seq<FieldType>, buf: seq<byte>): (r: Option<(seq<Value>, seq<byte>)>)
    ensures r.Some? ==> AllFit(types, r.value.0)
    decreases |types|
  {
    if types == [] then Some(([], buf))
    else match TakeField(types[0], buf)
      case None => None
      case Some((v, rest)) =>
        match TakeFields(types[1..], rest)
        case None => None
        case Some((vs, rest')) => Some(([v] + vs, rest'))
  }

  lemma {:induction false} TakesFields(types: seq<FieldType>, vals: seq<Value>, rest: seq<byte>)
    requires AllFit(types, vals)
    ensures TakeFields(types, PutFields(types, vals, rest)) == Some((vals, rest))
    decreases |types|
  {
    if types == [] {
      assert vals == [];
    } else {
      TakesField(types[0], vals[0], PutFields(types[1..], vals[1..], rest));
      TakesFields(types[1..], vals[1..], rest);
      assert [vals[0]] + vals[1..] == vals;
    }
  }

  // ---- Messages

  type Tag = t: nat | t < 0x1_0000

  /** Fixed fields in order, and the known extension tags in the order the encoder writes them. */
  datatype Schema = Schema(fields: seq<FieldType>, exts: map<Tag, FieldType>, order: seq<Tag>)

  predicate ValidSchema(s: Schema) {
    && (forall i | 0 <= i < |s.order| :: s.order[i] in s.exts)
    && (forall t | t in s.exts :: t in s.order)
    && (forall i, j | 0 <= i < j < |s.order| :: s.order[i] != s.order[j])
    && |s.order| < 0x1_0000
  }

  /** A decoded message; an extension is present exactly when its tag is a key. */
  datatype Msg = Msg(fixed: seq<Value>, ext: map<Tag, Value>)

  /** Known tags, each with a value whose bytes fit the extension's length field. */
  ghost predicate ExtsFit(s: Schema, ext: map<Tag, Value>) {
    forall t | t in ext :: t in s.exts && Fits(s.exts[t], ext[t]) && |PutField(s.exts[t], ext[t], [])| < 0x1_0000_0000
  }

  ghost predicate ValidMsg(s: Schema, m: Msg) {
    AllFit(s.fields, m.fixed) && ExtsFit(s, m.ext)
  }

  /** An extension as it travels: a tag and the bytes of its value. */
  datatype Ext = Ext(tag: Tag, value: seq<byte>)

  ghost predicate AllShort(es: seq<Ext>) {
    forall i | 0 <= i < |es| :: |es[i].value| < 0x1_0000_0000
  }

  function PutExts(es: seq<Ext>, rest: seq<byte>): seq<byte> {
    if es == [] then rest
    else LE(es[0].tag, 2) + (LE(|es[0].value|, 4) + (es[0].value + PutExts(es[1..], rest)))
  }

  /** A message's bytes from its fixed values and any list of extensions. */
  function Build(s: Schema, fixed: seq<Value>, es: seq<Ext>): seq<byte>
    requires AllFit(s.fields, fixed) && |es| < 0x1_0000
  {
    PutFields(s.fields, fixed, LE(|es|, 2) + PutExts(es, []))
  }

  /** The extensions the encoder writes: those present, in the schema's order. */
  function ExtsOf(s: Schema, m: Msg, order: seq<Tag>): (es: seq<Ext>)
    requires ValidMsg(s, m)
    ensures |es| <= |order|
  {
    if order == [] then []
    else
      var rest := ExtsOf(s, m, order[1..]);
      if order[0] in m.ext then [Ext(order[0], PutField(s.exts[order[0]], m.ext[order[0]], []))] + rest else rest
  }

  function Encode(s: Schema, m: Msg): seq<byte>
    requires ValidSchema(s) && ValidMsg(s, m)
  {
    Build(s, m.fixed, ExtsOf(s, m, s.order))
  }

  /** One extension off the front. */
  function TakeExt(buf: seq<byte>): (r: Option<(Ext, seq<byte>)>)
    ensures r.Some? ==> |r.value.1| < |buf| && |r.value.0.value| < 0x1_0000_0000
  {
    match TakeUint(buf, 2)
    case None => None
    case Some((tag, rest)) =>
      FitsLE(buf[..2]); Powers();
      match TakeUint(rest, 4)
      case None => None
      case Some((len, rest')) =>
        FitsLE(rest[..4]);
        match TakeBytes(rest', len)
        case None => None
        case Some((v, rest'')) => Some((Ext(tag, v), rest''))
  }

  /** An extension's value: one field and nothing more. */
  function ExtValue(t: FieldType, bytes: seq<byte>): Result<Value> {
    match TakeField(t, bytes)
    case None => Err(Truncated)
    case Some((v, rest)) => if rest == [] then Ok(v) else Err(TrailingBytes)
  }

  /** What one extension does to those collected so far: unknown tags are skipped. */
  function Collect(s: Schema, e: Ext, acc: map<Tag, Value>): Result<map<Tag, Value>> {
    if e.tag !in s.exts then Ok(acc)
    else if e.tag in acc then Err(DuplicateExtension)
    else match ExtValue(s.exts[e.tag], e.value)
      case Err(err) => Err(err)
      case Ok(v) => Ok(acc[e.tag := v])
  }

  /** The extension loop over `n` extensions. */
  function TakeExts(s: Schema, n: nat, buf: seq<byte>, acc: map<Tag, Value>): Result<(map<Tag, Value>, seq<byte>)>
    decreases n
  {
    if n == 0 then Ok((acc, buf))
    else match TakeExt(buf)
      case None => Err(Truncated)
      case Some((e, rest)) =>
        match Collect(s, e, acc)
        case Err(err) => Err(err)
        case Ok(acc') => TakeExts(s, n - 1, rest, acc')
  }

  function Decode(s: Schema, buf: seq<byte>): Result<Msg> {
    match TakeFields(s.fields, buf)
    case None => Err(Truncated)
    case Some((fixed, rest)) =>
      match TakeUint(rest, 2)
      case None => Err(Truncated)
      case Some((n, rest')) =>
        match TakeExts(s, n, rest', map[])
        case Err(err) => Err(err)
        case Ok((ext, left)) => if left == [] then Ok(Msg(fixed, ext)) else Err(TrailingBytes)
  }

  // ---- The extension loop depends on the list of extensions only

  function CollectAll(s: Schema, es: seq<Ext>, acc: map<Tag, Value>): Result<map<Tag, Value>>
    decreases |es|
  {
    if es == [] then Ok(acc)
    else match Collect(s, es[0], acc)
      case Err(err) => Err(err)
      case Ok(acc') => CollectAll(s, es[1..], acc')
  }

  lemma TakesExt(e: Ext, rest: seq<byte>)
    requires |e.value| < 0x1_0000_0000
    ensures TakeExt(LE(e.tag, 2) + (LE(|e.value|, 4) + (e.value + rest))) == Some((e, rest))
  {
    Powers();
    TakesUint(e.tag, 2, LE(|e.value|, 4) + (e.value + rest));
    TakesUint(|e.value|, 4, e.value + rest);
    TakesBytes(e.value, rest);
  }

  /** What the loop returns when `rest` follows the extensions. */
  function Leaving(r: Result<map<Tag, Value>>, rest: seq<byte>): Result<(map<Tag, Value>, seq<byte>)> {
    match r case Err(err) => Err(err) case Ok(m) => Ok((m, rest))
  }

  /** One turn of the extension loop over written extensions. */
  lemma TakesExtsStep(s: Schema, es: seq<Ext>, rest: seq<byte>, acc: map<Tag, Value>)
    requires AllShort(es) && es != []
    ensures TakeExts(s, |es|, PutExts(es, rest), acc) ==
              match Collect(s, es[0], acc)
              case Err(err) => Err(err)
              case Ok(acc') => TakeExts(s, |es[1..]|, PutExts(es[1..], rest), acc')
  {
    TakesExt(es[0], PutExts(es[1..], rest));
  }

  lemma {:induction false} TakesExts(s: Schema, es: seq<Ext>, rest: seq<byte>, acc: map<Tag, Value>)
    requires AllShort(es)
    ensures TakeExts(s, |es|, PutExts(es, rest), acc) == Leaving(CollectAll(s, es, acc), rest)
    decreases |es|
  {
    if es != [] {
      TakesExtsStep(s, es, rest, acc);
      var c := Collect(s, es[0], acc);
      if c.Ok? {
        TakesExts(s, es[1..], rest, c.value);
      }
    }
  }

  /** Decoding any built message: its fixed values, and its extensions collected. */
  lemma DecodesBuilt(s: Schema, fixed: seq<Value>, es: seq<Ext>)
    requires AllFit(s.fields, fixed) && |es| < 0x1_0000 && AllShort(es)
    ensures Decode(s, Build(s, fixed, es)) ==
              match CollectAll(s, es, map[]) case Err(err) => Err(err) case Ok(m) => Ok(Msg(fixed, m))
  {
    Powers();
    TakesFields(s.fields, fixed, LE(|es|, 2) + PutExts(es, []));
    TakesUint(|es|, 2, PutExts(es, []));
    TakesExts(s, es, [], map[]);
  }

  // ---- Round trip

  /** The extensions of `m` among `order`. */
  function Present(m: Msg, order: seq<Tag>): map<Tag, Value> {
    map t | t in m.ext && t in order :: m.ext[t]
  }

  lemma PresentHead(m: Msg, order: seq<Tag>, acc: map<Tag, Value>)
    requires order != []
    requires forall i | 0 < i < |order| :: order[i] != order[0]
    ensures var t := order[0];
            (if t in m.ext then acc[t := m.ext[t]] else acc) + Present(m, order[1..]) == acc + Present(m, order)
  {
    var t := order[0];
    assert order == [t] + order[1..];
    assert t !in order[1..];
    assert forall u :: u in order <==> u == t || u in order[1..];
  }

  lemma {:induction false} CollectsWritten(s: Schema, m: Msg, order: seq<Tag>, acc: map<Tag, Value>)
    requires ValidMsg(s, m)
    requires forall i | 0 <= i < |order| :: order[i] !in acc
    requires forall i, j | 0 <= i < j < |order| :: order[i] != order[j]
    ensures AllShort(ExtsOf(s, m, order))
    ensures CollectAll(s, ExtsOf(s, m, order), acc) == Ok(acc + Present(m, order))
    decreases |order|
  {
    if order == [] {
      assert acc + Present(m, order) == acc;
    } else {
      var t := order[0];
      var acc' := if t in m.ext then acc[t := m.ext[t]] else acc;
      PresentHead(m, order, acc);
      CollectsWritten(s, m, order[1..], acc');
      if t in m.ext {
        TakesField(s.exts[t], m.ext[t], []);
        assert ExtsOf(s, m, order)[1..] == ExtsOf(s, m, order[1..]);
      }
    }
  }

  lemma PresentAll(s: Schema, m: Msg)
    requires ValidSchema(s) && ValidMsg(s, m)
    ensures map[] + Present(m, s.order) == m.ext
  {
    forall t | t in m.ext ensures t in s.order {
      assert t in s.exts;
    }
  }

  /** Every message within its length fields comes back from its own encoding. */
  lemma RoundTrip(s: Schema, m: Msg)
    requires ValidSchema(s) && ValidMsg(s, m)
    ensures Decode(s, Encode(s, m)) == Ok(m)
  {
    CollectsWritten(s, m, s.order, map[]);
    DecodesBuilt(s, m.fixed, ExtsOf(s, m, s.order));
    PresentAll(s, m);
  }

  // ---- Order, unknown tags, repeats

  function Occurrences(es: seq<Ext>, t: Tag): nat {
    if es == [] then 0 else (if es[0].tag == t then 1 else 0) + Occurrences(es[1..], t)
  }

  predicate Known(s: Schema, e: Ext) {
    e.tag in s.exts
  }

  predicate Parses(s: Schema, e: Ext)
    requires Known(s, e)
  {
    ExtValue(s.exts[e.tag], e.value).Ok?
  }

  /** No known tag twice or already there, and every known value parses. */
  ghost predicate Clean(s: Schema, es: seq<Ext>, acc: map<Tag, Value>) {
    && (forall e | e in es && Known(s, e) :: e.tag !in acc && Parses(s, e))
    && (forall t | t in s.exts :: Occurrences(es, t) <= 1)
  }

  /** `m` is `acc` and the known extensions of `es`, and nothing else. */
  ghost predicate Collected(s: Schema, es: seq<Ext>, acc: map<Tag, Value>, m: map<Tag, Value>) {
    && (forall t :: t in m <==> t in acc || (t in s.exts && Occurrences(es, t) > 0))
    && (forall t | t in acc :: t in m && m[t] == acc[t])
    && (forall e | e in es && Known(s, e) :: e.tag in m && Ok(m[e.tag]) == ExtValue(s.exts[e.tag], e.value))
  }

  lemma {:induction false} OccursIn(es: seq<Ext>, e: Ext)
    requires e in es
    ensures Occurrences(es, e.tag) > 0
    decreases |es|
  {
    if es[0] != e {
      assert e in es[1..];
      OccursIn(es[1..], e);
    }
  }

  lemma {:induction false} OccursSomewhere(es: seq<Ext>, t: Tag) returns (e: Ext)
    requires Occurrences(es, t) > 0
    ensures e in es && e.tag == t
    decreases |es|
  {
    if es[0].tag == t {
      e := es[0];
    } else {
      e := OccursSomewhere(es[1..], t);
    }
  }

  /** The loop succeeds exactly on clean lists, with a result that does not depend on their order. */
  lemma {:induction false} CollectAllMeans(s: Schema, es: seq<Ext>, acc: map<Tag, Value>)
    ensures CollectAll(s, es, acc).Ok? <==> Clean(s, es, acc)
    ensures CollectAll(s, es, acc).Ok? ==> Collected(s, es, acc, CollectAll(s, es, acc).value)
    decreases |es|
  {
    if es != [] {
      var e, tail := es[0], es[1..];
      assert es == [e] + tail;
      var c := Collect(s, e, acc);
      if c.Ok? {
        CollectAllMeans(s, tail, c.value);
        CleanHead(s, e, tail, acc);
        if CollectAll(s, es, acc).Ok? {
          CollectedHead(s, e, tail, acc, c.value, CollectAll(s, es, acc).value);
        }
      } else {
        assert e in es;
      }
    }
  }

  lemma CleanHead(s: Schema, e: Ext, tail: seq<Ext>, acc: map<Tag, Value>)
    requires Collect(s, e, acc).Ok?
    ensures Clean(s, [e] + tail, acc) <==> Clean(s, tail, Collect(s, e, acc).value)
  {
    var es, acc' := [e] + tail, Collect(s, e, acc).value;
    assert es[1..] == tail;
    assert forall t :: Occurrences(es, t) == (if e.tag == t then 1 else 0) + Occurrences(tail, t);
    if Clean(s, es, acc) {
      forall f | f in tail && Known(s, f) ensures f.tag !in acc' && Parses(s, f) {
        assert f in es;
        OccursIn(tail, f);
        assert f.tag != e.tag;
      }
    }
    if Clean(s, tail, acc') {
      forall t | t in s.exts ensures Occurrences(es, t) <= 1 {
        if e.tag == t && Occurrences(tail, t) > 0 {
          var f := OccursSomewhere(tail, t);
          assert false;
        }
      }
    }
  }

  lemma CollectedHead(s: Schema, e: Ext, tail: seq<Ext>, acc: map<Tag, Value>, acc': map<Tag, Value>,
                      m: map<Tag, Value>)
    requires Collect(s, e, acc) == Ok(acc') && Collected(s, tail, acc', m)
    ensures Collected(s, [e] + tail, acc, m)
  {
    var es := [e] + tail;
    assert es[1..] == tail;
    assert forall t :: Occurrences(es, t) == (if e.tag == t then 1 else 0) + Occurrences(tail, t);
    assert forall f :: f in es <==> f == e || f in tail;
  }

  /** Two results collected from the same extensions are the same. */
  lemma CollectedUnique(s: Schema, es: seq<Ext>, fs: seq<Ext>, m: map<Tag, Value>, m': map<Tag, Value>)
    requires Collected(s, es, map[], m) && Collected(s, fs, map[], m')
    requires (forall e :: e in es <==> e in fs) && forall t :: Occurrences(es, t) == Occurrences(fs, t)
    ensures m == m'
  {
    assert m.Keys == m'.Keys by {
      assert forall t :: t in m <==> t in m';
    }
    forall t | t in m ensures m[t] == m'[t] {
      var e := OccursSomewhere(es, t);
      assert e in fs;
    }
  }

  lemma {:induction false} OccurrencesOfPermutation(es: seq<Ext>, fs: seq<Ext>, t: Tag)
    requires multiset(es) == multiset(fs)
    ensures Occurrences(es, t) == Occurrences(fs, t)
    decreases |es|
  {
    hide Occurrences;
    if es == [] {
      NoneIn(fs);
    } else {
      var k := PullOut(es, fs);
      var a, b := fs[..k], fs[k + 1..];
      CutAround(fs, k);
      CutAround(es, 0);
      WithoutOne(a, es[0], b, t);
      WithoutOne(es[..0], es[0], es[1..], t);
      assert es[..0] + es[1..] == es[1..];
      OccurrencesOfPermutation(es[1..], a + b, t);
    }
  }

  lemma NoneIn<T>(fs: seq<T>)
    requires multiset(fs) == multiset{}
    ensures fs == []
  {
    assert |multiset(fs)| == |fs|;
  }

  /** An element of a permuted sequence, taken out of both. */
  lemma PullOut<T>(es: seq<T>, fs: seq<T>) returns (k: nat)
    requires es != [] && multiset(es) == multiset(fs)
    ensures k < |fs| && fs[k] == es[0] && multiset(es[1..]) == multiset(fs[..k] + fs[k + 1..])
  {
    assert es[0] in multiset(fs);
    k :| 0 <= k < |fs| && fs[k] == es[0];
    CutAround(fs, k);
    assert es == [es[0]] + es[1..];
    assert multiset(fs) == multiset(fs[..k]) + (multiset{fs[k]} + multiset(fs[k + 1..]));
    assert multiset(es) == multiset{es[0]} + multiset(es[1..]);
    var a, b := multiset(fs[..k]), multiset(fs[k + 1..]);
    assert multiset(fs[..k] + fs[k + 1..]) == a + b;
    forall x ensures multiset(es[1..])[x] == (a + b)[x] {
      assert multiset(es)[x] == multiset(fs)[x];
    }
  }

  lemma CutAround<T>(s: seq<T>, k: nat)
    requires k < |s|
    ensures s[..k] + ([s[k]] + s[k + 1..]) == s
  {
  }

  /** Taking one extension out of the middle. */
  lemma WithoutOne(a: seq<Ext>, e: Ext, b: seq<Ext>, t: Tag)
    ensures Occurrences(a + ([e] + b), t) == Occurrences(a + b, t) + (if e.tag == t then 1 else 0)
  {
    OccurrencesSplit(a, [e] + b, t);
    OccurrencesSplit(a, b, t);
    assert ([e] + b)[1..] == b;
  }

  lemma {:induction false} OccurrencesSplit(a: seq<Ext>, b: seq<Ext>, t: Tag)
    ensures Occurrences(a + b, t) == Occurrences(a, t) + Occurrences(b, t)
    decreases |a|
  {
    if a == [] {
      assert a + b == b;
    } else {
      assert (a + b)[1..] == a[1..] + b;
      OccurrencesSplit(a[1..], b, t);
    }
  }

  /** Extensions may travel in any order: the same message, or an error, either way. */
  lemma PermutedExtensions(s: Schema, fixed: seq<Value>, es: seq<Ext>, fs: seq<Ext>)
    requires AllFit(s.fields, fixed) && |es| < 0x1_0000 && AllShort(es) && multiset(es) == multiset(fs)
    ensures |fs| == |es| && AllShort(fs)
    ensures var a, b := Decode(s, Build(s, fixed, es)), Decode(s, Build(s, fixed, fs));
            (a.Ok? <==> b.Ok?) && (a.Ok? ==> a == b)
  {
    assert |multiset(es)| == |es| && |multiset(fs)| == |fs|;
    SameElements(es, fs);
    forall i | 0 <= i < |fs| ensures |fs[i].value| < 0x1_0000_0000 {
      assert fs[i] in es;
    }
    forall t ensures Occurrences(es, t) == Occurrences(fs, t) {
      OccurrencesOfPermutation(es, fs, t);
    }
    DecodesBuilt(s, fixed, es);
    DecodesBuilt(s, fixed, fs);
    CollectAllMeans(s, es, map[]);
    CollectAllMeans(s, fs, map[]);
    if CollectAll(s, es, map[]).Ok? {
      CollectedUnique(s, es, fs, CollectAll(s, es, map[]).value, CollectAll(s, fs, map[]).value);
    }
  }

  lemma SameElements(es: seq<Ext>, fs: seq<Ext>)
    requires multiset(es) == multiset(fs)
    ensures forall e :: e in es <==> e in fs
  {
    forall e ensures e in es <==> e in fs {
      assert e in es <==> e in multiset(es);
      assert e in fs <==> e in multiset(fs);
    }
  }

  /** A known tag that occurs twice is always refused. */
  lemma RepeatedTagRefused(s: Schema, fixed: seq<Value>, es: seq<Ext>, t: Tag)
    requires AllFit(s.fields, fixed) && |es| < 0x1_0000 && AllShort(es)
    requires t in s.exts && Occurrences(es, t) > 1
    ensures Decode(s, Build(s, fixed, es)).Err?
  {
    DecodesBuilt(s, fixed, es);
    CollectAllMeans(s, es, map[]);
  }

  lemma {:induction false} SkipsUnknown(s: Schema, front: seq<Ext>, u: Ext, back: seq<Ext>, acc: map<Tag, Value>)
    requires !Known(s, u)
    ensures CollectAll(s, front + [u] + back, acc) == CollectAll(s, front + back, acc)
    decreases |front|
  {
    if front == [] {
      assert (front + [u] + back)[1..] == back && front + back == back;
    } else {
      assert (front + [u] + back)[1..] == front[1..] + [u] + back;
      assert (front + back)[1..] == front[1..] + back;
      var c := Collect(s, front[0], acc);
      if c.Ok? {
        SkipsUnknown(s, front[1..], u, back, c.value);
      }
    }
  }

  /** An extension with a tag the schema does not know changes nothing, wherever it is inserted and
      whatever it holds. */
  lemma UnknownTagIgnored(s: Schema, fixed: seq<Value>, front: seq<Ext>, u: Ext, back: seq<Ext>)
    requires AllFit(s.fields, fixed) && |front| + |back| + 1 < 0x1_0000 && AllShort(front + [u] + back)
    requires !Known(s, u)
    ensures AllShort(front + back)
    ensures Decode(s, Build(s, fixed, front + [u] + back)) == Decode(s, Build(s, fixed, front + back))
  {
    var all := front + [u] + back;
    forall i | 0 <= i < |front + back| ensures |(front + back)[i].value| < 0x1_0000_0000 {
      assert (front + back)[i] == all[if i < |front| then i else i + 1];
    }
    DecodesBuilt(s, fixed, all);
    DecodesBuilt(s, fixed, front + back);
    SkipsUnknown(s, front, u, back, map[]);
  }

  // ---- Normal form

  lemma {:induction false} TakenExtsFit(s: Schema, n: nat, buf: seq<byte>, acc: map<Tag, Value>)
    requires ExtsFit(s, acc)
    ensures var r := TakeExts(s, n, buf, acc);
            r.Ok? ==> ExtsFit(s, r.value.0)
    decreases n
  {
    if n > 0 && TakeExt(buf).Some? {
      var (e, rest) := TakeExt(buf).value;
      CollectFits(s, e, acc);
      var c := Collect(s, e, acc);
      if c.Ok? {
        TakenExtsFit(s, n - 1, rest, c.value);
      }
    }
  }

  lemma CollectFits(s: Schema, e: Ext, acc: map<Tag, Value>)
    requires ExtsFit(s, acc) && |e.value| < 0x1_0000_0000
    ensures Collect(s, e, acc).Ok? ==> ExtsFit(s, Collect(s, e, acc).value)
  {
    if Known(s, e) {
      FieldSize(s.exts[e.tag], e.value);
    }
  }

  /** A value read whole from some bytes takes as many bytes to write. */
  lemma FieldSize(t: FieldType, bytes: seq<byte>)
    ensures ExtValue(t, bytes).Ok? ==> |PutField(t, ExtValue(t, bytes).value, [])| == |bytes|
  {
  }

  /** Whatever bytes decode, the message is within its length fields, so it can be encoded; its
      encoding decodes to the same message, and re-encoding that changes nothing. */
  lemma ReencodingIsNormalForm(s: Schema, buf: seq<byte>)
    requires ValidSchema(s) && Decode(s, buf).Ok?
    ensures ValidMsg(s, Decode(s, buf).value)
    ensures var m := Decode(s, buf).value;
            var normal := Encode(s, m);
            Decode(s, normal) == Ok(m) && Encode(s, Decode(s, normal).value) == normal
  {
    match TakeFields(s.fields, buf)
    case Some((fixed, rest)) =>
      match TakeUint(rest, 2)
      case Some((n, rest')) =>
        TakenExtsFit(s, n, rest', map[]);
        RoundTrip(s, Decode(s, buf).value);
  }
}
