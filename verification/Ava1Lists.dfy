/** Lists of length-prefixed messages, and the directory listing that nests one
    (payload/gen/ava1_app_gen.c). */
module Ava1Lists {
  import opened Bytes
  import opened Ava1
  import opened Wrappers

  // ---- The schemas of the modelled messages

  const NODE_STATUS: Schema :=
    Schema([StrField, StrField, U64, U64, U64, U16, U8, U8, U16, U16], map[1 := StrField], [1])
  const FS_ENTRY: Schema := Schema([StrField, U8, U64], map[1 := U64, 2 := U32], [1, 2])
  const FS_LIST_RESULT: Schema := Schema([BytesField, U32, U8], map[], [])
  const FS_WRITE: Schema := Schema([StrField, U64, U32, BytesField], map[1 := U32], [1])

  lemma SchemasAreValid()
    ensures ValidSchema(NODE_STATUS) && ValidSchema(FS_ENTRY) && ValidSchema(FS_LIST_RESULT) && ValidSchema(FS_WRITE)
  {
    assert 1 in FS_ENTRY.order && 2 in FS_ENTRY.order by { assert FS_ENTRY.order[0] == 1 && FS_ENTRY.order[1] == 2; }
    assert 1 in NODE_STATUS.order by { assert NODE_STATUS.order[0] == 1; }
    assert 1 in FS_WRITE.order by { assert FS_WRITE.order[0] == 1; }
  }

  // ---- append and next

  ghost predicate Listable(s: Schema, m: Msg) {
    ValidSchema(s) && ValidMsg(s, m) && |Encode(s, m)| < 0x1_0000_0000
  }

  /** `..._append`: a length, then the message. */
  function Append(s: Schema, blob: seq<byte>, m: Msg): seq<byte>
    requires Listable(s, m)
  {
    blob + Framed(s, m)
  }

  function Framed(s: Schema, m: Msg): seq<byte>
    requires Listable(s, m)
  {
    LE(|Encode(s, m)|, 4) + Encode(s, m)
  }

  ghost predicate AllListable(s: Schema, ms: seq<Msg>) {
    forall i | 0 <= i < |ms| :: Listable(s, ms[i])
  }

  /** `blob` with `ms` appended in turn. */
  function AppendAll(s: Schema, blob: seq<byte>, ms: seq<Msg>): seq<byte>
    requires AllListable(s, ms)
    decreases |ms|
  {
    if ms == [] then blob else AppendAll(s, Append(s, blob, ms[0]), ms[1..])
  }

  datatype NextResult = End | Item(m: Msg, rest: seq<byte>) | Bad(error: Error)

  /** `..._next` on the bytes not yet iterated. Each message takes at least its four length bytes. */
  function Next(s: Schema, it: seq<byte>): (r: NextResult)
    ensures r.Item? ==> |r.rest| + 4 <= |it|
    ensures r.End? <==> it == []
  {
    if it == [] then End
    else match TakeUint(it, 4)
      case None => Bad(Truncated)
      case Some((n, rest)) =>
        match TakeBytes(rest, n)
        case None => Bad(Truncated)
        case Some((body, rest')) =>
          match Decode(s, body)
          case Err(err) => Bad(err)
          case Ok(m) => Item(m, rest')
  }

  /** All messages of a blob, in order. */
  function Items(s: Schema, it: seq<byte>): Result<seq<Msg>>
    decreases |it|
  {
    match Next(s, it)
    case End => Ok([])
    case Bad(err) => Err(err)
    case Item(m, rest) =>
      match Items(s, rest)
      case Err(err) => Err(err)
      case Ok(ms) => Ok([m] + ms)
  }

  lemma NextOfAppended(s: Schema, m: Msg, rest: seq<byte>)
    requires Listable(s, m)
    ensures Next(s, LE(|Encode(s, m)|, 4) + (Encode(s, m) + rest)) == Item(m, rest)
  {
    Powers();
    TakesUint(|Encode(s, m)|, 4, Encode(s, m) + rest);
    TakesBytes(Encode(s, m), rest);
    RoundTrip(s, m);
  }

  /** Bytes after a whole message do not change how it is read. */
  lemma NextWithMore(s: Schema, it: seq<byte>, more: seq<byte>)
    requires Next(s, it).Item?
    ensures Next(s, it + more) == Item(Next(s, it).m, Next(s, it).rest + more)
  {
    var n := FromLE(it[..4]);
    var all := it + more;
    assert all[..4] == it[..4] && all[4..] == it[4..] + more;
    assert (it[4..] + more)[..n] == it[4..][..n];
    assert (it[4..] + more)[n..] == it[4..][n..] + more;
  }

  lemma {:induction false} ItemsOfConcat(s: Schema, a: seq<byte>, b: seq<byte>)
    requires Items(s, a).Ok? && Items(s, b).Ok?
    ensures Items(s, a + b) == Ok(Items(s, a).value + Items(s, b).value)
    decreases |a|
  {
    if a == [] {
      assert a + b == b;
      assert Items(s, a).value + Items(s, b).value == Items(s, b).value;
    } else {
      NextWithMore(s, a, b);
      ItemsOfConcat(s, Next(s, a).rest, b);
      Assoc([Next(s, a).m], Items(s, Next(s, a).rest).value, Items(s, b).value);
    }
  }

  /** A blob built by any sequence of appends is iterated to exactly those messages, in order, and
      then to its end. */
  lemma {:induction false} IteratesWhatWasAppended(s: Schema, blob: seq<byte>, before: seq<Msg>, ms: seq<Msg>)
    requires Items(s, blob) == Ok(before) && AllListable(s, ms)
    ensures Items(s, AppendAll(s, blob, ms)) == Ok(before + ms)
    decreases |ms|
  {
    if ms == [] {
      Unit(before);
    } else {
      OneMore(s, blob, ms[0]);
      IteratesWhatWasAppended(s, Append(s, blob, ms[0]), before + [ms[0]], ms[1..]);
      ShiftHead(before, ms);
    }
  }

  lemma Unit<T>(a: seq<T>)
    ensures a + [] == a && [] + a == a
  {
  }

  lemma OneMore(s: Schema, blob: seq<byte>, m: Msg)
    requires Items(s, blob).Ok? && Listable(s, m)
    ensures Items(s, Append(s, blob, m)) == Ok(Items(s, blob).value + [m])
  {
    OneItem(s, m);
    ItemsOfConcat(s, blob, Framed(s, m));
  }

  lemma OneItem(s: Schema, m: Msg)
    requires Listable(s, m)
    ensures Items(s, Framed(s, m)) == Ok([m])
  {
    assert Encode(s, m) + [] == Encode(s, m);
    NextOfAppended(s, m, []);
    assert Items(s, []) == Ok([]);
    assert [m] + [] == [m];
  }

  // ---- The directory listing

  datatype Listing = Listing(entries: seq<byte>, count: nat, totalScanned: nat, more: nat)

  /** What follows the entries. */
  const LISTING_TAIL: Schema := Schema([U32, U8], map[], [])

  /** `ava1_fs_list_result_decode`: the entries are iterated as soon as their bytes are in. */
  function DecodeListing(buf: seq<byte>): Result<Listing> {
    match TakeField(BytesField, buf)
    case None => Err(Truncated)
    case Some((entries, rest)) =>
      match Items(FS_ENTRY, entries.b)
      case Err(err) => Err(err)
      case Ok(ms) =>
        match Decode(LISTING_TAIL, rest)
        case Err(err) => Err(err)
        case Ok(m) => Ok(Listing(entries.b, |ms|, m.fixed[0].n, m.fixed[1].n))
  }

  lemma TailShape(buf: seq<byte>)
    requires Decode(LISTING_TAIL, buf).Ok?
    ensures var vs := Decode(LISTING_TAIL, buf).value.fixed;
            |vs| == 2 && vs[0].Num? && vs[1].Num?
  {
    assert AllFit(LISTING_TAIL.fields, TakeFields(LISTING_TAIL.fields, buf).value.0);
  }

  /** A listing of any entries comes back with their number, and its blob iterates to them. */
  lemma ListingRoundTrip(es: seq<Msg>, totalScanned: nat, more: nat)
    requires AllListable(FS_ENTRY, es)
    requires |AppendAll(FS_ENTRY, [], es)| < 0x1_0000_0000 && totalScanned < 0x1_0000_0000 && more < 0x100
    ensures var blob := AppendAll(FS_ENTRY, [], es);
            var m := Msg([Blob(blob), Num(totalScanned), Num(more)], map[]);
            && ValidSchema(FS_LIST_RESULT) && ValidMsg(FS_LIST_RESULT, m)
            && DecodeListing(Encode(FS_LIST_RESULT, m)) == Ok(Listing(blob, |es|, totalScanned, more))
            && Items(FS_ENTRY, blob) == Ok(es)
  {
    var blob := AppendAll(FS_ENTRY, [], es);
    IteratesWhatWasAppended(FS_ENTRY, [], [], es);
    Unit(es);
    ListingParts(blob, totalScanned, more);
    TakesField(BytesField, Blob(blob), Encode(LISTING_TAIL, Msg([Num(totalScanned), Num(more)], map[])));
    RoundTrip(LISTING_TAIL, Msg([Num(totalScanned), Num(more)], map[]));
  }

  /** The encoding of a listing is its entries' field and then the rest of the message. */
  lemma ListingParts(blob: seq<byte>, totalScanned: nat, more: nat)
    requires |blob| < 0x1_0000_0000 && totalScanned < 0x1_0000_0000 && more < 0x100
    ensures var m := Msg([Blob(blob), Num(totalScanned), Num(more)], map[]);
            var m' := Msg([Num(totalScanned), Num(more)], map[]);
            && ValidSchema(FS_LIST_RESULT) && ValidMsg(FS_LIST_RESULT, m)
            && ValidSchema(LISTING_TAIL) && ValidMsg(LISTING_TAIL, m') && Fits(BytesField, Blob(blob))
            && Encode(FS_LIST_RESULT, m) == PutField(BytesField, Blob(blob), Encode(LISTING_TAIL, m'))
  {
    Powers();
    var m, m' := Msg([Blob(blob), Num(totalScanned), Num(more)], map[]), Msg([Num(totalScanned), Num(more)], map[]);
    assert FS_LIST_RESULT.fields[1..] == LISTING_TAIL.fields && m.fixed[1..] == m'.fixed;
  }
}
