/** The decoders as they run: a moving reader that stays in error, the field and extension loops, and
    the counting iterator (payload/gen/ava1_app_gen.c). */
module Ava1Reader {
  import opened Bytes
  import opened Ava1
  import opened Ava1Lists
  import opened Wrappers

  class Reader {
    const buf: seq<byte>
    var pos: nat
    var err: bool

    ghost predicate Valid()
      reads this
    {
      pos <= |buf|
    }

    ghost function Rest(): seq<byte>
      requires Valid()
      reads this
    {
      buf[pos..]
    }

    constructor (bytes: seq<byte>)
      ensures Valid() && !err && buf == bytes && Rest() == bytes
    {
      buf := bytes;
      pos, err := 0, false;
    }

    /** `ava1_r_u8` .. `ava1_r_u64`, by width. */
    method Uint(w: nat) returns (n: nat)
      requires Valid()
      modifies this
      ensures Valid()
      ensures old(err) ==> err && n == 0
      ensures !old(err) && TakeUint(old(Rest()), w).None? ==> err && n == 0
      ensures !old(err) && TakeUint(old(Rest()), w).Some? ==>
                !err && TakeUint(old(Rest()), w) == Some((n, Rest()))
    {
      if err { return 0; }
      if |buf| - pos < w {
        err := true;
        return 0;
      }
      assert buf[pos..][..w] == buf[pos..pos + w] && buf[pos..][w..] == buf[pos + w..];
      n := FromLE(buf[pos..pos + w]);
      pos := pos + w;
    }

    /** `ava1_r_take` */
    method Take(n: nat) returns (b: seq<byte>)
      requires Valid()
      modifies this
      ensures Valid()
      ensures old(err) ==> err
      ensures !old(err) && TakeBytes(old(Rest()), n).None? ==> err
      ensures !old(err) && TakeBytes(old(Rest()), n).Some? ==>
                !err && TakeBytes(old(Rest()), n) == Some((b, Rest()))
    {
      b := [];
      if err { return; }
      if |buf| - pos < n {
        err := true;
        return;
      }
      assert buf[pos..][..n] == buf[pos..pos + n] && buf[pos..][n..] == buf[pos + n..];
      b := buf[pos..pos + n];
      pos := pos + n;
    }

    /** One field: an integer, or `ava1_r_str` / `ava1_r_bytes`. */
    method Field(t: FieldType) returns (v: Value)
      requires Valid()
      modifies this
      ensures Valid()
      ensures old(err) ==> err
      ensures !old(err) && TakeField(t, old(Rest())).None? ==> err
      ensures !old(err) && TakeField(t, old(Rest())).Some? ==>
                !err && TakeField(t, old(Rest())) == Some((v, Rest()))
    {
      var n := Uint(Width(t));
      v := Num(n);
      if IsBlob(t) {
        var b := Take(n);
        v := Blob(b);
      }
    }

    /** `ava1_r_finish`: the error, or bytes left over. */
    method Finish() returns (e: Option<Error>)
      requires Valid()
      ensures e == if err then Some(Truncated) else if Rest() == [] then None else Some(TrailingBytes)
    {
      if err { return Some(Truncated); }
      if pos == |buf| { return None; }
      assert buf[pos..][0] == buf[pos];
      return Some(TrailingBytes);
    }
  }

  function Prepend(vs: seq<Value>, r: Option<(seq<Value>, seq<byte>)>): Option<(seq<Value>, seq<byte>)> {
    match r case None => None case Some((ws, rest)) => Some((vs + ws, rest))
  }

  lemma FieldsStep(types: seq<FieldType>, i: nat, vs: seq<Value>, buf: seq<byte>)
    requires i < |types|
    ensures Prepend(vs, TakeFields(types[i..], buf)) ==
              match TakeField(types[i], buf)
              case None => None
              case Some((v, rest)) => Prepend(vs + [v], TakeFields(types[i + 1..], rest))
  {
    assert types[i..][0] == types[i] && types[i..][1..] == types[i + 1..];
    if TakeField(types[i], buf).Some? {
      var (v, rest) := TakeField(types[i], buf).value;
      if TakeFields(types[i + 1..], rest).Some? {
        Assoc(vs, [v], TakeFields(types[i + 1..], rest).value.0);
      }
    }
  }

  lemma FieldsEnd(types: seq<FieldType>, vs: seq<Value>, buf: seq<byte>)
    ensures Prepend(vs, TakeFields(types[|types|..], buf)) == Some((vs, buf))
  {
    Unit(vs);
  }

  /** The fixed fields, read in order. */
  method ReadFields(types: seq<FieldType>, r: Reader) returns (fixed: seq<Value>)
    requires r.Valid() && !r.err
    modifies r
    ensures r.Valid()
    ensures r.err <==> TakeFields(types, old(r.Rest())).None?
    ensures !r.err ==> TakeFields(types, old(r.Rest())) == Some((fixed, r.Rest()))
  {
    ghost var all := TakeFields(types, r.Rest());
    fixed := [];
    assert types[0..] == types;
    assert all == Prepend([], TakeFields(types[0..], r.Rest())) by {
      if all.Some? { Unit(all.value.0); }
    }
    for i := 0 to |types|
      invariant r.Valid()
      invariant if r.err then all.None? else all == Prepend(fixed, TakeFields(types[i..], r.Rest()))
    {
      FieldsStep(types, i, fixed, r.Rest());
      var v := r.Field(types[i]);
      fixed := fixed + [v];
    }
    FieldsEnd(types, fixed, r.Rest());
  }

  /** The value of one known extension. */
  method ReadExtValue(t: FieldType, bytes: seq<byte>) returns (v: Result<Value>)
    ensures v == ExtValue(t, bytes)
  {
    var vr := new Reader(bytes);
    var x := vr.Field(t);
    var e := vr.Finish();
    if e.Some? { return Err(e.value); }
    v := Ok(x);
  }

  /** The extension loop: unknown tags are skipped, a repeated known one ends it. */
  method ReadExts(s: Schema, n: nat, r: Reader) returns (ext: Result<map<Tag, Value>>)
    requires r.Valid() && !r.err
    modifies r
    ensures r.Valid()
    ensures ext.Err? ==> TakeExts(s, n, old(r.Rest()), map[]) == Err(ext.error)
    ensures ext.Ok? && r.err ==> TakeExts(s, n, old(r.Rest()), map[]) == Err(Truncated)
    ensures ext.Ok? && !r.err ==> TakeExts(s, n, old(r.Rest()), map[]) == Ok((ext.value, r.Rest()))
  {
    hide TakeExt, ExtValue;
    ghost var all := TakeExts(s, n, r.Rest(), map[]);
    var acc: map<Tag, Value> := map[];
    var i := 0;
    while i < n && !r.err
      invariant i <= n && r.Valid()
      invariant if r.err then all == Err(Truncated) else all == TakeExts(s, n - i, r.Rest(), acc)
      decreases n - i
    {
      var e := ReadExt(r);
      if r.err { break; }
      i := i + 1;
      if e.tag !in s.exts { continue; }
      if e.tag in acc { return Err(DuplicateExtension); }
      var v := ReadExtValue(s.exts[e.tag], e.value);
      if v.Err? { return Err(v.error); }
      acc := acc[e.tag := v.value];
    }
    ext := Ok(acc);
  }

  method ReadExt(r: Reader) returns (e: Ext)
    requires r.Valid() && !r.err
    modifies r
    ensures r.Valid()
    ensures r.err <==> TakeExt(old(r.Rest())).None?
    ensures !r.err ==> TakeExt(old(r.Rest())) == Some((e, r.Rest()))
  {
    ghost var before := r.Rest();
    var tag := r.Uint(2);
    ghost var middle := r.Rest();
    var len := r.Uint(4);
    var v := r.Take(len);
    if r.err { return Ext(0, []); }
    FitsLE(before[..2]);
    Powers();
    e := Ext(tag, v);
  }

  /** `..._decode` for any message of the schema. */
  method DecodeMessage(s: Schema, buf: seq<byte>) returns (m: Result<Msg>)
    ensures m == Decode(s, buf)
  {
    var r := new Reader(buf);
    m := DecodeRest(s, r);
  }

  /** The same from wherever a reader stands. */
  method DecodeRest(s: Schema, r: Reader) returns (m: Result<Msg>)
    requires r.Valid() && !r.err
    modifies r
    ensures m == Decode(s, old(r.Rest()))
  {
    var fixed := ReadFields(s.fields, r);
    var n := r.Uint(2);
    if r.err { return Err(Truncated); }
    var ext := ReadExts(s, n, r);
    if ext.Err? { return Err(ext.error); }
    var e := r.Finish();
    if e.Some? { return Err(e.value); }
    m := Ok(Msg(fixed, ext.value));
  }

  /** The messages of a blob so far iterated. */
  function After(ms: seq<Msg>, r: Result<seq<Msg>>): Result<seq<Msg>> {
    match r case Err(err) => Err(err) case Ok(rest) => Ok(ms + rest)
  }

  lemma ItemsStep(s: Schema, ms: seq<Msg>, it: seq<byte>)
    ensures After(ms, Items(s, it)) ==
              match Next(s, it)
              case End => Ok(ms)
              case Bad(err) => Err(err)
              case Item(m, rest) => After(ms + [m], Items(s, rest))
  {
    match Next(s, it)
    case End => Unit(ms);
    case Bad(_) =>
    case Item(m, rest) =>
      if Items(s, rest).Ok? {
        Assoc(ms, [m], Items(s, rest).value);
      }
  }

  /** `..._next`: one message of the iterated blob; None at its end. */
  method NextMessage(s: Schema, r: Reader) returns (m: Result<Option<Msg>>)
    requires r.Valid() && !r.err
    modifies r
    ensures r.Valid()
    ensures match Next(s, old(r.Rest()))
            case End => m == Ok(None)
            case Bad(err) => m == Err(err)
            case Item(msg, rest) => m == Ok(Some(msg)) && !r.err && r.Rest() == rest
  {
    if r.pos == |r.buf| { return Ok(None); }
    assert r.Rest() != [];
    var n := r.Uint(4);
    var body := r.Take(n);
    if r.err { return Err(Truncated); }
    var d := DecodeMessage(s, body);
    m := if d.Err? then Err(d.error) else Ok(Some(d.value));
  }

  /** `..._count`: how many messages a blob holds, or why it is not a list. */
  method Count(s: Schema, blob: seq<byte>) returns (count: Result<nat>)
    ensures Items(s, blob).Ok? ==> count == Ok(|Items(s, blob).value|)
    ensures Items(s, blob).Err? ==> count == Err(Items(s, blob).error)
  {
    var it := new Reader(blob);
    ghost var ms: seq<Msg> := [];
    var n := 0;
    assert After([], Items(s, blob)) == Items(s, blob) by {
      if Items(s, blob).Ok? { Unit(Items(s, blob).value); }
    }
    while true
      invariant it.Valid() && !it.err && n == |ms|
      invariant After(ms, Items(s, it.Rest())) == Items(s, blob)
      decreases |it.Rest()|
    {
      ItemsStep(s, ms, it.Rest());
      var m := NextMessage(s, it);
      if m.Err? { return Err(m.error); }
      if m.value.None? { return Ok(n); }
      ms := ms + [m.value.value];
      n := n + 1;
    }
  }

  /** `ava1_fs_list_result_decode`: an entry that does not decode is reported before anything that
      follows the entries is read. */
  method DecodeListingMessage(buf: seq<byte>) returns (l: Result<Listing>)
    ensures l == DecodeListing(buf)
  {
    hide Decode, Items, TakeField;
    var r := new Reader(buf);
    var entries := r.Field(BytesField);
    if r.err { return Err(Truncated); }
    var count := Count(FS_ENTRY, entries.b);
    if count.Err? { return Err(count.error); }
    ghost var rest := r.Rest();
    var tail := DecodeRest(LISTING_TAIL, r);
    if tail.Err? { return Err(tail.error); }
    TailShape(rest);
    l := Ok(Listing(entries.b, count.value, tail.value.fixed[0].n, tail.value.fixed[1].n));
  }
}
