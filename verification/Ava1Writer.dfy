/** The encoders as they run: a writer that only grows, with the lengths of extensions and list items
    filled in behind them (payload/gen/ava1_app_gen.c). */
module Ava1Writer {
  import opened Bytes
  import opened Ava1
  import opened Ava1Lists

  /** A writer over a buffer of `cap` bytes: what does not fit puts it in an error it stays in. */
  class Writer {
    const cap: nat
    var out: seq<byte>
    var err: bool
    ghost var want: seq<byte>  // what it would hold with room for all

    ghost predicate Valid()
      reads this
    {
      |out| <= cap && (err <==> |want| > cap) && (!err ==> out == want)
    }

    /** `ava1_w_init` */
    constructor (cap: nat)
      ensures Valid() && !err && this.cap == cap && want == []
    {
      this.cap := cap;
      out, err, want := [], false, [];
    }

    method Put(b: seq<byte>)
      requires Valid()
      modifies this
      ensures Valid() && want == old(want) + b && old(out) <= out
    {
      want := want + b;
      if !err && |b| <= cap - |out| {
        out := out + b;
      } else {
        err := true;
      }
    }

    /** `ava1_w_u8` .. `ava1_w_u64`, by width. */
    method Uint(n: nat, w: nat)
      requires Valid() && n < Pow256(w)
      modifies this
      ensures Valid() && want == old(want) + LE(n, w) && old(out) <= out
    {
      Put(LE(n, w));
    }

    /** Taking back all that was written from `at` on, an error included. */
    method Undo(at: nat)
      requires Valid() && at <= |out|
      modifies this
      ensures Valid() && !err && out == old(out)[..at]
    {
      out, err := out[..at], false;
      want := out;
    }

    /** One field: an integer, or `ava1_w_str` / `ava1_w_bytes`. */
    method Field(t: FieldType, v: Value)
      requires Valid() && Fits(t, v)
      modifies this
      ensures Valid() && want == old(want) + PutField(t, v, []) && old(out) <= out
    {
      match v
      case Num(n) =>
        Uint(n, Width(t));
        assert LE(n, Width(t)) + [] == LE(n, Width(t));
      case Blob(b) =>
        Uint(|b|, Width(t));
        Put(b);
        assert b + [] == b;
        Assoc(old(want), LE(|b|, Width(t)), b);
    }

    /** `ava1_w_len_begin`: leaves room for a length and says where. */
    method LenBegin() returns (at: nat)
      requires Valid()
      modifies this
      ensures Valid() && want == old(want) + LE(0, 4) && old(out) <= out && (!err ==> at == |old(want)|)
    {
      at := |out|;
      Powers();
      Uint(0, 4);
    }

    /** `ava1_w_len_end`: the length of all that was written since. */
    method LenEnd(at: nat, ghost start: nat)
      requires Valid() && (!err ==> at == start)
      requires start + 4 <= |want| && |want| - start - 4 < 0x1_0000_0000
      modifies this
      ensures Valid() && err == old(err) && (err ==> out == old(out))
      ensures want == old(want)[..start] + (LE(|old(want)| - start - 4, 4) + old(want)[start + 4..])
    {
      Powers();
      want := want[..start] + (LE(|want| - start - 4, 4) + want[start + 4..]);
      if !err {
        out := out[..at] + (LE(|out| - at - 4, 4) + out[at + 4..]);
      }
    }
  }

  // ---- One message

  lemma FieldThen(t: FieldType, v: Value, rest: seq<byte>)
    requires Fits(t, v)
    ensures PutField(t, v, []) + rest == PutField(t, v, rest)
  {
    match v
    case Num(n) =>
      assert LE(n, Width(t)) + [] == LE(n, Width(t));
    case Blob(b) =>
      assert b + [] == b;
      Assoc(LE(|b|, Width(t)), b, rest);
  }

  /** The fixed fields in order; `tail` stands for what the message goes on with. */
  method WriteFields(types: seq<FieldType>, vals: seq<Value>, w: Writer, ghost tail: seq<byte>)
    requires w.Valid() && AllFit(types, vals)
    modifies w
    ensures w.Valid() && old(w.out) <= w.out && w.want + tail == old(w.want) + PutFields(types, vals, tail)
  {
    var i := 0;
    assert types[0..] == types && vals[0..] == vals;
    while i < |types|
      invariant w.Valid() && old(w.out) <= w.out && i <= |types| && AllFit(types[i..], vals[i..])
      invariant w.want + PutFields(types[i..], vals[i..], tail) == old(w.want) + PutFields(types, vals, tail)
    {
      ghost var sofar, rest := w.want, PutFields(types[i + 1..], vals[i + 1..], tail);
      FieldsHead(types, vals, i, tail);
      w.Field(types[i], vals[i]);
      FieldThen(types[i], vals[i], rest);
      Assoc(sofar, PutField(types[i], vals[i], []), rest);
      i := i + 1;
    }
  }

  lemma FieldsHead(types: seq<FieldType>, vals: seq<Value>, i: nat, tail: seq<byte>)
    requires AllFit(types, vals) && i < |types|
    ensures AllFit(types[i..], vals[i..]) && AllFit(types[i + 1..], vals[i + 1..])
    ensures PutFields(types[i..], vals[i..], tail)
            == PutField(types[i], vals[i], PutFields(types[i + 1..], vals[i + 1..], tail))
  {
    assert types[i..][1..] == types[i + 1..] && vals[i..][1..] == vals[i + 1..];
  }

  lemma ExtsHead(s: Schema, m: Msg, order: seq<Tag>, i: nat)
    requires ValidMsg(s, m) && i < |order|
    ensures var es, t := ExtsOf(s, m, order[i + 1..]), order[i];
            ExtsOf(s, m, order[i..])
            == if t in m.ext then [Ext(t, PutField(s.exts[t], m.ext[t], []))] + es else es
  {
    assert order[i..][1..] == order[i + 1..];
  }

  method CountExts(s: Schema, m: Msg) returns (n: nat)
    requires ValidMsg(s, m)
    ensures n == |ExtsOf(s, m, s.order)|
  {
    n := 0;
    var i := 0;
    assert s.order[0..] == s.order;
    while i < |s.order|
      invariant i <= |s.order|
      invariant n + |ExtsOf(s, m, s.order[i..])| == |ExtsOf(s, m, s.order)|
    {
      ExtsHead(s, m, s.order, i);
      if s.order[i] in m.ext {
        n := n + 1;
      }
      i := i + 1;
    }
  }

  /** One extension: its tag, room for its length, its value, and then the length. */
  method WriteExt(tag: Tag, t: FieldType, v: Value, w: Writer)
    requires w.Valid() && Fits(t, v) && |PutField(t, v, [])| < 0x1_0000_0000
    modifies w
    ensures w.Valid() && old(w.out) <= w.out
    ensures w.want == old(w.want) + (LE(tag, 2) + (LE(|PutField(t, v, [])|, 4) + PutField(t, v, [])))
  {
    hide LE, PutField;
    Powers();
    w.Uint(tag, 2);
    ghost var start := |w.want|;
    var at := w.LenBegin();
    w.Field(t, v);
    w.LenEnd(at, start);
    Filled(old(w.want) + LE(tag, 2), LE(0, 4), LE(|PutField(t, v, [])|, 4), PutField(t, v, []));
    Assoc(old(w.want), LE(tag, 2), LE(|PutField(t, v, [])|, 4) + PutField(t, v, []));
  }

  /** Filling in a length where room was left for it. */
  lemma Filled(before: seq<byte>, room: seq<byte>, len: seq<byte>, value: seq<byte>)
    requires |room| == 4
    ensures var all, at := before + room + value, |before|;
            && |all| == at + 4 + |value|
            && all[..at] + (len + all[at + 4..]) == before + (len + value)
  {
    var all, at := before + room + value, |before|;
    assert all[..at] == before;
    assert all[at + 4..] == value;
  }

  lemma ExtFits(s: Schema, m: Msg, t: Tag)
    requires ValidMsg(s, m) && t in m.ext
    ensures t in s.exts && Fits(s.exts[t], m.ext[t]) && |PutField(s.exts[t], m.ext[t], [])| < 0x1_0000_0000
  {
  }

  lemma ExtThen(sofar: seq<byte>, e: Ext, es: seq<Ext>)
    ensures sofar + (LE(e.tag, 2) + (LE(|e.value|, 4) + e.value)) + PutExts(es, [])
            == sofar + PutExts([e] + es, [])
  {
    var a, b, c := LE(e.tag, 2), LE(|e.value|, 4), PutExts(es, []);
    assert ([e] + es)[1..] == es;
    Assoc(b, e.value, c);
    Assoc(a, b + e.value, c);
    Assoc(sofar, a + (b + e.value), c);
  }

  method WriteExts(s: Schema, m: Msg, w: Writer)
    requires w.Valid() && ValidMsg(s, m)
    modifies w
    ensures w.Valid() && old(w.out) <= w.out && w.want == old(w.want) + PutExts(ExtsOf(s, m, s.order), [])
  {
    var i := 0;
    ghost var all := PutExts(ExtsOf(s, m, s.order), []);
    assert s.order[0..] == s.order;
    while i < |s.order|
      invariant w.Valid() && old(w.out) <= w.out && i <= |s.order|
      invariant w.want + PutExts(ExtsOf(s, m, s.order[i..]), []) == old(w.want) + all
    {
      var t := s.order[i];
      ghost var sofar, es := w.want, ExtsOf(s, m, s.order[i + 1..]);
      ExtsHead(s, m, s.order, i);
      if t in m.ext {
        ExtFits(s, m, t);
        WriteExt(t, s.exts[t], m.ext[t], w);
        ExtThen(sofar, Ext(t, PutField(s.exts[t], m.ext[t], [])), es);
      }
      i := i + 1;
    }
    assert s.order[i..] == [];
    assert w.want + [] == w.want;
  }

  /** `..._encode` for any message of the schema: its bytes after whatever the writer holds, and whether
      they fit. */
  method EncodeMessage(s: Schema, m: Msg, w: Writer) returns (ok: bool)
    requires w.Valid() && ValidSchema(s) && ValidMsg(s, m)
    modifies w
    ensures w.Valid() && old(w.out) <= w.out && w.want == old(w.want) + Encode(s, m)
    ensures ok <==> |old(w.want)| + |Encode(s, m)| <= w.cap
    ensures ok ==> w.out == old(w.out) + Encode(s, m)
  {
    ghost var es := ExtsOf(s, m, s.order);
    var n := CountExts(s, m);
    WriteFields(s.fields, m.fixed, w, LE(n, 2) + PutExts(es, []));
    ghost var fixed := w.want;
    Powers();
    w.Uint(n, 2);
    WriteExts(s, m, w);
    Assoc(fixed, LE(n, 2), PutExts(es, []));
    ok := !w.err;
  }

  /** `..._append`: one more item of a list, its length filled in last; no item when it does not fit. */
  method AppendMessage(s: Schema, m: Msg, blob: Writer) returns (ok: bool)
    requires blob.Valid() && Listable(s, m)
    modifies blob
    ensures blob.Valid() && old(blob.out) <= blob.out && (ok <==> !blob.err)
    ensures ok <==> |Append(s, old(blob.want), m)| <= blob.cap
    ensures ok ==> blob.out == Append(s, old(blob.out), m)
  {
    hide Encode, LE;
    ghost var start := |blob.want|;
    var at := blob.LenBegin();
    ok := EncodeMessage(s, m, blob);
    if !ok {
      return;
    }
    blob.LenEnd(at, start);
    Filled(old(blob.want), LE(0, 4), LE(|Encode(s, m)|, 4), Encode(s, m));
  }

  /** The blob is what appending `ms` in turn gives, and iterates to them. */
  ghost predicate IsListOf(s: Schema, ms: seq<Msg>, blob: seq<byte>) {
    AllListable(s, ms) && blob == AppendAll(s, [], ms) && Items(s, blob) == Ok(ms)
  }

  /** The listing loop of `fs.list`: entries are appended until one does not fit, and what that one left is
      undone. The blob then holds the list of those that did, and one more would not have fitted. */
  method AppendWhileTheyFit(s: Schema, ms: seq<Msg>, cap: nat) returns (n: nat, blob: seq<byte>)
    requires AllListable(s, ms)
    ensures n <= |ms| && IsListOf(s, ms[..n], blob) && |blob| <= cap
    ensures n < |ms| ==> |Append(s, blob, ms[n])| > cap
  {
    var w := new Writer(cap);
    n := 0;
    while n < |ms|
      invariant n <= |ms| && w.Valid() && fresh(w) && w.cap == cap && !w.err
      invariant w.out == AppendAll(s, [], ms[..n])
    {
      var at := |w.out|;
      var ok := AppendMessage(s, ms[n], w);
      if !ok {
        w.Undo(at);
        break;
      }
      AppendAllLast(s, [], ms, n);
      n := n + 1;
    }
    blob := w.out;
    IteratesWhatWasAppended(s, [], [], ms[..n]);
    assert [] + ms[..n] == ms[..n];
  }

  lemma {:induction false} AppendAllLast(s: Schema, blob: seq<byte>, ms: seq<Msg>, n: nat)
    requires AllListable(s, ms) && n < |ms|
    ensures AppendAll(s, blob, ms[..n + 1]) == Append(s, AppendAll(s, blob, ms[..n]), ms[n])
    decreases n
  {
    if n == 0 {
      assert ms[..1][1..] == [] && ms[..1][0] == ms[0];
    } else {
      AppendAllLast(s, Append(s, blob, ms[0]), ms[1..], n - 1);
      assert ms[..n + 1][1..] == ms[1..][..n] && ms[..n][1..] == ms[1..][..n - 1];
    }
  }
}
