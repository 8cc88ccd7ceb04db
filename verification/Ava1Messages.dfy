/** The bytes of the modelled AVA1 messages, written out field by field (payload/gen/ava1_app_gen.c), and what
    decoding them, or too few or too many of them, gives. */
module Ava1Messages {
  import opened Bytes
  import opened Wrappers
  import opened Ava1
  import opened Ava1Lists

  // ---- The messages, with named fields

  datatype NodeStatus = NodeStatus(
    version: seq<byte>, kernel: seq<byte>, instanceId: nat, startedAt: nat, commandCount: nat, startupReason: nat,
    ucredElevated: nat, maxStreams: nat, fanThreshold: nat, fanReapply: nat, priorInstance: Option<seq<byte>>)

  datatype FsEntry = FsEntry(name: seq<byte>, kind: nat, size: nat, mtime: Option<nat>, mode: Option<nat>)

  datatype FsListResult = FsListResult(entries: seq<byte>, totalScanned: nat, more: nat)

  datatype FsWrite = FsWrite(path: seq<byte>, offset: nat, flags: nat, data: seq<byte>, mode: Option<nat>)

  // ---- Their values in a message

  function NodeStatusMsg(m: NodeStatus): Msg {
    Msg([Blob(m.version), Blob(m.kernel), Num(m.instanceId), Num(m.startedAt), Num(m.commandCount),
         Num(m.startupReason), Num(m.ucredElevated), Num(m.maxStreams), Num(m.fanThreshold), Num(m.fanReapply)],
        if m.priorInstance.None? then map[] else map[1 := Blob(m.priorInstance.value)])
  }

  function FsEntryMsg(m: FsEntry): Msg {
    Msg([Blob(m.name), Num(m.kind), Num(m.size)],
        (if m.mtime.None? then map[] else map[1 := Num(m.mtime.value)])
        + (if m.mode.None? then map[] else map[2 := Num(m.mode.value)]))
  }

  function FsListResultMsg(m: FsListResult): Msg {
    Msg([Blob(m.entries), Num(m.totalScanned), Num(m.more)], map[])
  }

  function FsWriteMsg(m: FsWrite): Msg {
    Msg([Blob(m.path), Num(m.offset), Num(m.flags), Blob(m.data)],
        if m.mode.None? then map[] else map[1 := Num(m.mode.value)])
  }

  // ---- Their bytes

  /** A string is its length in two bytes and its text. */
  function Str(b: seq<byte>, rest: seq<byte>): seq<byte> {
    LE(|b|, 2) + (b + rest)
  }

  function NodeStatusBytes(m: NodeStatus): seq<byte> {
    Str(m.version, Str(m.kernel,
      LE(m.instanceId, 8) + (LE(m.startedAt, 8) + (LE(m.commandCount, 8)
      + (LE(m.startupReason, 2) + (LE(m.ucredElevated, 1) + (LE(m.maxStreams, 1)
      + (LE(m.fanThreshold, 2) + (LE(m.fanReapply, 2)
      + (if m.priorInstance.None? then LE(0, 2)
         else LE(1, 2) + (LE(1, 2) + (LE(2 + |m.priorInstance.value|, 4) + Str(m.priorInstance.value, [])))))))))))))
  }

  function FsEntryBytes(m: FsEntry): seq<byte> {
    Str(m.name, LE(m.kind, 1) + (LE(m.size, 8)
      + (LE((if m.mtime.None? then 0 else 1) + (if m.mode.None? then 0 else 1), 2)
      + ((if m.mtime.None? then [] else LE(1, 2) + (LE(8, 4) + LE(m.mtime.value, 8)))
      + (if m.mode.None? then [] else LE(2, 2) + (LE(4, 4) + LE(m.mode.value, 4)))))))
  }

  function FsListResultBytes(m: FsListResult): seq<byte> {
    LE(|m.entries|, 4) + (m.entries + (LE(m.totalScanned, 4) + (LE(m.more, 1) + LE(0, 2))))
  }

  function FsWriteBytes(m: FsWrite): seq<byte> {
    Str(m.path, LE(m.offset, 8) + (LE(m.flags, 4) + (LE(|m.data|, 4) + (m.data
      + (if m.mode.None? then LE(0, 2) else LE(1, 2) + (LE(1, 2) + (LE(4, 4) + LE(m.mode.value, 4))))))))
  }

  // ---- Values that their fields can hold

  predicate NodeStatusFits(m: NodeStatus) {
    && |m.version| < 0x1_0000 && |m.kernel| < 0x1_0000 && m.instanceId < Bytes.U64 && m.startedAt < Bytes.U64
    && m.commandCount < Bytes.U64 && m.startupReason < 0x1_0000 && m.ucredElevated < 0x100 && m.maxStreams < 0x100
    && m.fanThreshold < 0x1_0000 && m.fanReapply < 0x1_0000
    && (m.priorInstance.Some? ==> |m.priorInstance.value| < 0x1_0000)
  }

  predicate FsEntryFits(m: FsEntry) {
    && |m.name| < 0x1_0000 && m.kind < 0x100 && m.size < Bytes.U64
    && (m.mtime.Some? ==> m.mtime.value < Bytes.U64) && (m.mode.Some? ==> m.mode.value < 0x1_0000_0000)
  }

  predicate FsListResultFits(m: FsListResult) {
    |m.entries| < 0x1_0000_0000 && m.totalScanned < 0x1_0000_0000 && m.more < 0x100
  }

  predicate FsWriteFits(m: FsWrite) {
    && |m.path| < 0x1_0000 && m.offset < Bytes.U64 && m.flags < 0x1_0000_0000 && |m.data| < 0x1_0000_0000
    && (m.mode.Some? ==> m.mode.value < 0x1_0000_0000)
  }

  // ---- One field after another

  lemma PutsFirst(t: FieldType, ts: seq<FieldType>, v: Value, vs: seq<Value>, rest: seq<byte>)
    requires Fits(t, v) && AllFit(ts, vs)
    ensures AllFit([t] + ts, [v] + vs)
    ensures PutFields([t] + ts, [v] + vs, rest) == PutField(t, v, PutFields(ts, vs, rest))
  {
    assert ([t] + ts)[1..] == ts && ([v] + vs)[1..] == vs;
  }

  lemma PutsNone(rest: seq<byte>)
    ensures AllFit([], []) && PutFields([], [], rest) == rest
  {
  }

  /** The extensions of a message whose schema orders one tag. */
  lemma OneExt(s: Schema, m: Msg, t: Tag)
    requires ValidMsg(s, m) && s.order == [t]
    ensures ExtsOf(s, m, s.order)
            == if t in m.ext then [Ext(t, PutField(s.exts[t], m.ext[t], []))] else []
  {
    assert [t][1..] == [];
    assert ExtsOf(s, m, []) == [];
    if t in m.ext {
      assert [Ext(t, PutField(s.exts[t], m.ext[t], []))] + [] == [Ext(t, PutField(s.exts[t], m.ext[t], []))];
    }
  }

  lemma TwoExts(s: Schema, m: Msg, t: Tag, u: Tag)
    requires ValidMsg(s, m) && s.order == [t, u]
    ensures ExtsOf(s, m, s.order)
            == (if t in m.ext then [Ext(t, PutField(s.exts[t], m.ext[t], []))] else [])
               + (if u in m.ext then [Ext(u, PutField(s.exts[u], m.ext[u], []))] else [])
  {
    assert [t, u][1..] == [u] && [u][1..] == [];
    assert ExtsOf(s, m, []) == [];
    assert ExtsOf(s, m, [u]) == if u in m.ext then [Ext(u, PutField(s.exts[u], m.ext[u], []))] else [];
  }

  lemma PutsExt(e: Ext, es: seq<Ext>)
    ensures PutExts([e] + es, []) == LE(e.tag, 2) + (LE(|e.value|, 4) + (e.value + PutExts(es, [])))
  {
    assert ([e] + es)[1..] == es;
  }

  lemma NoExts()
    ensures PutExts([], []) == []
  {
  }

  // ---- The four messages

  /** The encoder writes exactly these bytes, and decoding them gives the message back. */
  lemma FsEntryTravels(m: FsEntry)
    requires FsEntryFits(m)
    ensures ValidSchema(FS_ENTRY) && ValidMsg(FS_ENTRY, FsEntryMsg(m))
    ensures Encode(FS_ENTRY, FsEntryMsg(m)) == FsEntryBytes(m)
    ensures Decode(FS_ENTRY, FsEntryBytes(m)) == Ok(FsEntryMsg(m))
  {
    hide LE, PutFields, PutExts, ExtsOf, Decode, ValidMsg, ValidSchema, FsEntryFits, FsEntryMsg;
    SchemasAreValid();
    FsEntryIsValid(m);
    FsEntryWritten(m);
    var es := ExtsOf(FS_ENTRY, FsEntryMsg(m), FS_ENTRY.order);
    FsEntryExts(m, es);
    FsEntryFields(m, LE(|es|, 2) + PutExts(es, []));
    RoundTrip(FS_ENTRY, FsEntryMsg(m));
  }

  lemma FsEntryIsValid(m: FsEntry)
    requires FsEntryFits(m)
    ensures ValidMsg(FS_ENTRY, FsEntryMsg(m))
  {
    hide LE, PutFields;
    Powers();
    FsEntryFields(m, []);
    assert ExtsFit(FS_ENTRY, FsEntryMsg(m).ext);
  }

  lemma FsEntryWritten(m: FsEntry)
    requires FsEntryFits(m) && ValidMsg(FS_ENTRY, FsEntryMsg(m))
    ensures ExtsOf(FS_ENTRY, FsEntryMsg(m), FS_ENTRY.order)
            == (if m.mtime.Some? then [Ext(1, LE(m.mtime.value, 8) + [])] else [])
               + (if m.mode.Some? then [Ext(2, LE(m.mode.value, 4) + [])] else [])
  {
    hide LE, ExtsOf;
    TwoExts(FS_ENTRY, FsEntryMsg(m), 1, 2);
  }

  lemma FsEntryFields(m: FsEntry, rest: seq<byte>)
    requires FsEntryFits(m)
    ensures AllFit(FS_ENTRY.fields, FsEntryMsg(m).fixed)
    ensures PutFields(FS_ENTRY.fields, FsEntryMsg(m).fixed, rest)
            == Str(m.name, LE(m.kind, 1) + (LE(m.size, 8) + rest))
  {
    hide LE, PutFields;
    Powers();
    PutsNone(rest);
    PutsFirst(FieldType.U64, [], Num(m.size), [], rest);
    PutsFirst(U8, [FieldType.U64], Num(m.kind), [Num(m.size)], rest);
    PutsFirst(StrField, [U8, FieldType.U64], Blob(m.name), [Num(m.kind), Num(m.size)], rest);
    assert [FieldType.U64] + [] == [FieldType.U64] && [Num(m.size)] + [] == [Num(m.size)];
    assert [U8] + [FieldType.U64] == [U8, FieldType.U64];
    assert [Num(m.kind)] + [Num(m.size)] == [Num(m.kind), Num(m.size)];
    assert [StrField] + [U8, FieldType.U64] == FS_ENTRY.fields;
    assert [Blob(m.name)] + [Num(m.kind), Num(m.size)] == FsEntryMsg(m).fixed;
  }

  lemma FsEntryExts(m: FsEntry, es: seq<Ext>)
    requires FsEntryFits(m)
    requires es == (if m.mtime.Some? then [Ext(1, LE(m.mtime.value, 8) + [])] else [])
                   + (if m.mode.Some? then [Ext(2, LE(m.mode.value, 4) + [])] else [])
    ensures |es| == (if m.mtime.None? then 0 else 1) + (if m.mode.None? then 0 else 1)
    ensures PutExts(es, [])
            == (if m.mtime.None? then [] else LE(1, 2) + (LE(8, 4) + LE(m.mtime.value, 8)))
               + (if m.mode.None? then [] else LE(2, 2) + (LE(4, 4) + LE(m.mode.value, 4)))
  {
    hide LE, PutExts;
    NoExts();
    var second: seq<Ext> := if m.mode.Some? then [Ext(2, LE(m.mode.value, 4) + [])] else [];
    if m.mode.Some? {
      var v := LE(m.mode.value, 4);
      assert v + [] == v && [Ext(2, v)] + [] == [Ext(2, v)];
      PutsExt(Ext(2, v), []);
    }
    if m.mtime.Some? {
      var v := LE(m.mtime.value, 8);
      assert v + [] == v;
      PutsExt(Ext(1, v), second);
      Assoc3(LE(1, 2), LE(8, 4), v, PutExts(second, []));
    } else {
      assert [] + second == second && [] + PutExts(second, []) == PutExts(second, []);
    }
  }

  lemma Assoc3<T>(a: seq<T>, b: seq<T>, c: seq<T>, d: seq<T>)
    ensures a + (b + (c + d)) == (a + (b + c)) + d
  {
  }

  /** The last extension of a message, or the count of none. */
  lemma LastExt(s: Schema, m: Msg, t: Tag, bytes: seq<byte>)
    requires ValidMsg(s, m) && s.order == [t]
    requires t in m.ext ==> bytes == PutField(s.exts[t], m.ext[t], [])
    ensures |ExtsOf(s, m, s.order)| < 0x1_0000
    ensures LE(|ExtsOf(s, m, s.order)|, 2) + PutExts(ExtsOf(s, m, s.order), [])
            == if t in m.ext then LE(1, 2) + (LE(t, 2) + (LE(|bytes|, 4) + bytes)) else LE(0, 2)
  {
    hide LE, PutExts;
    OneExt(s, m, t);
    NoExts();
    if t in m.ext {
      PutsExt(Ext(t, bytes), []);
      assert [Ext(t, bytes)] + [] == [Ext(t, bytes)] && bytes + [] == bytes;
    } else {
      assert LE(0, 2) + [] == LE(0, 2);
    }
  }

  /** `ava1_fs_write` */
  lemma FsWriteTravels(m: FsWrite)
    requires FsWriteFits(m)
    ensures ValidSchema(FS_WRITE) && ValidMsg(FS_WRITE, FsWriteMsg(m))
    ensures Encode(FS_WRITE, FsWriteMsg(m)) == FsWriteBytes(m)
    ensures Decode(FS_WRITE, FsWriteBytes(m)) == Ok(FsWriteMsg(m))
  {
    hide LE, PutFields, PutExts, ExtsOf;
    Powers();
    SchemasAreValid();
    var msg := FsWriteMsg(m);
    FsWriteFields(m, []);
    assert ExtsFit(FS_WRITE, msg.ext);
    var bytes := if m.mode.None? then [] else LE(m.mode.value, 4);
    assert m.mode.Some? ==> bytes + [] == bytes;
    LastExt(FS_WRITE, msg, 1, bytes);
    var es := ExtsOf(FS_WRITE, msg, FS_WRITE.order);
    FsWriteFields(m, LE(|es|, 2) + PutExts(es, []));
    RoundTrip(FS_WRITE, msg);
  }

  lemma FsWriteFields(m: FsWrite, rest: seq<byte>)
    requires FsWriteFits(m)
    ensures AllFit(FS_WRITE.fields, FsWriteMsg(m).fixed)
    ensures PutFields(FS_WRITE.fields, FsWriteMsg(m).fixed, rest)
            == Str(m.path, LE(m.offset, 8) + (LE(m.flags, 4) + (LE(|m.data|, 4) + (m.data + rest))))
  {
    hide LE, PutFields;
    Powers();
    var d, f, o, p := Blob(m.data), Num(m.flags), Num(m.offset), Blob(m.path);
    PutsNone(rest);
    PutsFirst(BytesField, [], d, [], rest);
    PutsFirst(U32, [BytesField], f, [d], rest);
    PutsFirst(FieldType.U64, [U32, BytesField], o, [f, d], rest);
    PutsFirst(StrField, [FieldType.U64, U32, BytesField], p, [o, f, d], rest);
    assert [BytesField] + [] == [BytesField] && [d] + [] == [d];
    assert [U32] + [BytesField] == [U32, BytesField] && [f] + [d] == [f, d];
    assert [FieldType.U64] + [U32, BytesField] == [FieldType.U64, U32, BytesField] && [o] + [f, d] == [o, f, d];
    assert [StrField] + [FieldType.U64, U32, BytesField] == FS_WRITE.fields && [p] + [o, f, d] == FsWriteMsg(m).fixed;
  }

  /** `ava1_fs_list_result` */
  lemma FsListResultTravels(m: FsListResult)
    requires FsListResultFits(m)
    ensures ValidSchema(FS_LIST_RESULT) && ValidMsg(FS_LIST_RESULT, FsListResultMsg(m))
    ensures Encode(FS_LIST_RESULT, FsListResultMsg(m)) == FsListResultBytes(m)
    ensures Decode(FS_LIST_RESULT, FsListResultBytes(m)) == Ok(FsListResultMsg(m))
  {
    hide LE, PutFields, PutExts;
    Powers();
    SchemasAreValid();
    var msg := FsListResultMsg(m);
    var b, t, k := Blob(m.entries), Num(m.totalScanned), Num(m.more);
    var rest := LE(0, 2) + PutExts([], []);
    NoExts();
    assert LE(0, 2) + [] == LE(0, 2);
    PutsNone(rest);
    PutsFirst(U8, [], k, [], rest);
    PutsFirst(U32, [U8], t, [k], rest);
    PutsFirst(BytesField, [U32, U8], b, [t, k], rest);
    assert [U8] + [] == [U8] && [k] + [] == [k] && [U32] + [U8] == [U32, U8] && [t] + [k] == [t, k];
    assert [BytesField] + [U32, U8] == FS_LIST_RESULT.fields && [b] + [t, k] == msg.fixed;
    assert ExtsOf(FS_LIST_RESULT, msg, FS_LIST_RESULT.order) == [];
    RoundTrip(FS_LIST_RESULT, msg);
  }

  /** `ava1_node_status` */
  lemma NodeStatusTravels(m: NodeStatus)
    requires NodeStatusFits(m)
    ensures ValidSchema(NODE_STATUS) && ValidMsg(NODE_STATUS, NodeStatusMsg(m))
    ensures Encode(NODE_STATUS, NodeStatusMsg(m)) == NodeStatusBytes(m)
    ensures Decode(NODE_STATUS, NodeStatusBytes(m)) == Ok(NodeStatusMsg(m))
  {
    hide LE, PutFields, PutExts, ExtsOf;
    Powers();
    SchemasAreValid();
    var msg := NodeStatusMsg(m);
    NodeStatusFields(m, []);
    assert ExtsFit(NODE_STATUS, msg.ext);
    var bytes := if m.priorInstance.None? then [] else Str(m.priorInstance.value, []);
    LastExt(NODE_STATUS, msg, 1, bytes);
    var es := ExtsOf(NODE_STATUS, msg, NODE_STATUS.order);
    NodeStatusFields(m, LE(|es|, 2) + PutExts(es, []));
    RoundTrip(NODE_STATUS, msg);
  }

  /** The first five fields, and the last five. */
  lemma NodeStatusFields(m: NodeStatus, rest: seq<byte>)
    requires NodeStatusFits(m)
    ensures AllFit(NODE_STATUS.fields, NodeStatusMsg(m).fixed)
    ensures PutFields(NODE_STATUS.fields, NodeStatusMsg(m).fixed, rest)
            == Str(m.version, Str(m.kernel,
                 LE(m.instanceId, 8) + (LE(m.startedAt, 8) + (LE(m.commandCount, 8)
                 + (LE(m.startupReason, 2) + (LE(m.ucredElevated, 1) + (LE(m.maxStreams, 1)
                 + (LE(m.fanThreshold, 2) + (LE(m.fanReapply, 2) + rest)))))))))
  {
    hide LE, PutFields, PutField, Fits;
    var ts: seq<FieldType>, vs := [U16, U8, U8, U16, U16],
      [Num(m.startupReason), Num(m.ucredElevated), Num(m.maxStreams), Num(m.fanThreshold), Num(m.fanReapply)];
    NodeStatusTail(m, rest);
    Puts64(m.commandCount, ts, vs, rest);
    var ts1, vs1 := [FieldType.U64] + ts, [Num(m.commandCount)] + vs;
    Puts64(m.startedAt, ts1, vs1, rest);
    var ts2, vs2 := [FieldType.U64] + ts1, [Num(m.startedAt)] + vs1;
    Puts64(m.instanceId, ts2, vs2, rest);
    var ts3, vs3 := [FieldType.U64] + ts2, [Num(m.instanceId)] + vs2;
    PutsStr(m.kernel, ts3, vs3, rest);
    PutsStr(m.version, [StrField] + ts3, [Blob(m.kernel)] + vs3, rest);
    assert [StrField] + ([StrField] + ts3) == NODE_STATUS.fields;
    assert [Blob(m.version)] + ([Blob(m.kernel)] + vs3) == NodeStatusMsg(m).fixed;
  }

  lemma Puts64(n: nat, ts: seq<FieldType>, vs: seq<Value>, rest: seq<byte>)
    requires n < Bytes.U64 && AllFit(ts, vs)
    ensures AllFit([FieldType.U64] + ts, [Num(n)] + vs)
    ensures PutFields([FieldType.U64] + ts, [Num(n)] + vs, rest) == LE(n, 8) + PutFields(ts, vs, rest)
  {
    hide LE, PutFields;
    Powers();
    PutsFirst(FieldType.U64, ts, Num(n), vs, rest);
  }

  lemma PutsStr(b: seq<byte>, ts: seq<FieldType>, vs: seq<Value>, rest: seq<byte>)
    requires |b| < 0x1_0000 && AllFit(ts, vs)
    ensures AllFit([StrField] + ts, [Blob(b)] + vs)
    ensures PutFields([StrField] + ts, [Blob(b)] + vs, rest) == Str(b, PutFields(ts, vs, rest))
  {
    hide LE, PutFields;
    Powers();
    PutsFirst(StrField, ts, Blob(b), vs, rest);
  }

  lemma NodeStatusTail(m: NodeStatus, rest: seq<byte>)
    requires NodeStatusFits(m)
    ensures var ts: seq<FieldType>, vs := [U16, U8, U8, U16, U16],
              [Num(m.startupReason), Num(m.ucredElevated), Num(m.maxStreams), Num(m.fanThreshold), Num(m.fanReapply)];
            && AllFit(ts, vs)
            && PutFields(ts, vs, rest)
               == LE(m.startupReason, 2) + (LE(m.ucredElevated, 1) + (LE(m.maxStreams, 1)
                  + (LE(m.fanThreshold, 2) + (LE(m.fanReapply, 2) + rest))))
  {
    hide LE, PutFields;
    Powers();
    var s, u, x, f, p :=
      Num(m.startupReason), Num(m.ucredElevated), Num(m.maxStreams), Num(m.fanThreshold), Num(m.fanReapply);
    PutsNone(rest);
    PutsFirst(U16, [], p, [], rest);
    PutsFirst(U16, [U16], f, [p], rest);
    PutsFirst(U8, [U16, U16], x, [f, p], rest);
    PutsFirst(U8, [U8, U16, U16], u, [x, f, p], rest);
    PutsFirst(U16, [U8, U8, U16, U16], s, [u, x, f, p], rest);
    assert [U16] + [] == [U16] && [p] + [] == [p] && [U16] + [U16] == [U16, U16] && [f] + [p] == [f, p];
    assert [U8] + [U16, U16] == [U8, U16, U16] && [x] + [f, p] == [x, f, p];
    assert [U8] + [U8, U16, U16] == [U8, U8, U16, U16] && [u] + [x, f, p] == [u, x, f, p];
    assert [U16] + [U8, U8, U16, U16] == [U16, U8, U8, U16, U16] && [s] + [u, x, f, p] == [s, u, x, f, p];
  }

  // ---- In a list

  /** An appended entry adds its length in four bytes and its bytes. */
  lemma AppendedEntry(blob: seq<byte>, m: FsEntry)
    requires FsEntryFits(m) && |FsEntryBytes(m)| < 0x1_0000_0000
    ensures Listable(FS_ENTRY, FsEntryMsg(m))
    ensures Append(FS_ENTRY, blob, FsEntryMsg(m)) == blob + (LE(|FsEntryBytes(m)|, 4) + FsEntryBytes(m))
    ensures Next(FS_ENTRY, LE(|FsEntryBytes(m)|, 4) + (FsEntryBytes(m) + blob)) == Item(FsEntryMsg(m), blob)
  {
    hide LE, FsEntryBytes;
    FsEntryTravels(m);
    NextOfAppended(FS_ENTRY, FsEntryMsg(m), blob);
  }

  // ---- A tag twice

  lemma {:induction false} CollectsLast(s: Schema, es: seq<Ext>, e: Ext, acc: map<Tag, Value>)
    requires CollectAll(s, es, acc).Ok?
    ensures CollectAll(s, es + [e], acc) == Collect(s, e, CollectAll(s, es, acc).value)
    decreases |es|
  {
    hide Collect;
    if es == [] {
      assert [] + [e] == [e] && [e][1..] == [];
    } else {
      assert (es + [e])[1..] == es[1..] + [e];
      CollectsLast(s, es[1..], e, Collect(s, es[0], acc).value);
    }
  }

  /** A message with an extension it has once more at its end, whatever its value now, is refused for that. */
  lemma AgainIsDuplicate(s: Schema, m: Msg, e: Ext)
    requires ValidSchema(s) && ValidMsg(s, m) && e.tag in m.ext && |e.value| < 0x1_0000_0000
    requires |ExtsOf(s, m, s.order)| < 0xFFFF
    ensures Decode(s, Build(s, m.fixed, ExtsOf(s, m, s.order) + [e])) == Err(DuplicateExtension)
  {
    hide Build, Decode, ExtsOf, CollectAll;
    var es := ExtsOf(s, m, s.order);
    CollectsWritten(s, m, s.order, map[]);
    PresentAll(s, m);
    CollectsLast(s, es, e, map[]);
    DecodesBuilt(s, m.fixed, es + [e]);
  }

  // ---- Too few bytes, and too many

  lemma {:induction false} PutsThen(types: seq<FieldType>, vals: seq<Value>, a: seq<byte>, b: seq<byte>)
    requires AllFit(types, vals)
    ensures PutFields(types, vals, a) + b == PutFields(types, vals, a + b)
    decreases |types|
  {
    hide LE;
    if types != [] {
      PutsThen(types[1..], vals[1..], a, b);
      FieldAnd(types[0], vals[0], PutFields(types[1..], vals[1..], a), b);
    }
  }

  lemma FieldAnd(t: FieldType, v: Value, a: seq<byte>, b: seq<byte>)
    requires Fits(t, v)
    ensures PutField(t, v, a) + b == PutField(t, v, a + b)
  {
    match v
    case Num(n) => Assoc(LE(n, Width(t)), a, b);
    case Blob(s) =>
      Assoc(LE(|s|, Width(t)), s + a, b);
      Assoc(s, a, b);
  }

  lemma {:induction false} ExtsThen(es: seq<Ext>, b: seq<byte>)
    ensures PutExts(es, []) + b == PutExts(es, b)
    decreases |es|
  {
    hide LE;
    if es == [] {
      assert [] + b == b;
    } else {
      ExtsThen(es[1..], b);
      var rest := PutExts(es[1..], []);
      Assoc(LE(es[0].tag, 2), LE(|es[0].value|, 4) + (es[0].value + rest), b);
      Assoc(LE(|es[0].value|, 4), es[0].value + rest, b);
      Assoc(es[0].value, rest, b);
    }
  }

  /** A message with anything after it is refused. */
  lemma TrailingIsRefused(s: Schema, m: Msg, extra: seq<byte>)
    requires ValidSchema(s) && ValidMsg(s, m) && extra != []
    ensures Decode(s, Encode(s, m) + extra) == Err(TrailingBytes)
  {
    hide LE, PutFields, PutExts, TakeFields, TakeExts, ExtsOf, CollectAll;
    var es := ExtsOf(s, m, s.order);
    CollectsWritten(s, m, s.order, map[]);
    PutsThen(s.fields, m.fixed, LE(|es|, 2) + PutExts(es, []), extra);
    Assoc(LE(|es|, 2), PutExts(es, []), extra);
    ExtsThen(es, extra);
    Powers();
    TakesFields(s.fields, m.fixed, LE(|es|, 2) + PutExts(es, extra));
    TakesUint(|es|, 2, PutExts(es, extra));
    TakesExts(s, es, extra, map[]);
  }

  /** A field with its end missing is not read; with more after it that is cut too, it is. */
  lemma CutField(t: FieldType, v: Value, rest: seq<byte>, n: nat)
    requires Fits(t, v) && n <= |PutField(t, v, rest)|
    ensures var whole := |PutField(t, v, [])|;
            TakeField(t, PutField(t, v, rest)[..n])
            == if n < whole then None else Some((v, rest[..n - whole]))
  {
    hide LE;
    var buf, w := PutField(t, v, rest), Width(t);
    match v
    case Num(k) =>
      assert |PutField(t, v, [])| == w;
      if n >= w {
        assert buf[..n] == LE(k, w) + rest[..n - w];
        TakesField(t, v, rest[..n - w]);
      }
    case Blob(b) =>
      var head := LE(|b|, w);
      assert |PutField(t, v, [])| == w + |b|;
      if n >= w + |b| {
        assert buf[..n] == head + (b + rest[..n - w - |b|]);
        TakesField(t, v, rest[..n - w - |b|]);
      } else if n >= w {
        assert buf[..n] == head + (b + rest)[..n - w];
        TakesUint(|b|, w, (b + rest)[..n - w]);
      }
  }

  lemma {:induction false} CutFields(types: seq<FieldType>, vals: seq<Value>, rest: seq<byte>, n: nat)
    requires AllFit(types, vals) && n <= |PutFields(types, vals, rest)|
    ensures var whole := |PutFields(types, vals, [])|;
            && |PutFields(types, vals, rest)| == whole + |rest|
            && TakeFields(types, PutFields(types, vals, rest)[..n])
               == if n < whole then None else Some((vals, rest[..n - whole]))
    decreases |types|
  {
    hide LE, PutField, TakeField;
    if types != [] {
      var t, v := types[0], vals[0];
      var more, none := PutFields(types[1..], vals[1..], rest), PutFields(types[1..], vals[1..], []);
      FieldLength(t, v, more);
      FieldLength(t, v, none);
      var k := |PutField(t, v, [])|;
      CutField(t, v, more, n);
      CutFields(types[1..], vals[1..], rest, if n < k then 0 else n - k);
      assert [v] + vals[1..] == vals;
    }
  }

  lemma FieldLength(t: FieldType, v: Value, rest: seq<byte>)
    requires Fits(t, v)
    ensures |PutField(t, v, rest)| == |PutField(t, v, [])| + |rest|
  {
  }

  lemma CutExt(e: Ext, rest: seq<byte>, n: nat)
    requires |e.value| < 0x1_0000_0000
    requires n <= 6 + |e.value| + |rest|
    ensures var buf := LE(e.tag, 2) + (LE(|e.value|, 4) + (e.value + rest));
            |buf| == 6 + |e.value| + |rest|
            && TakeExt(buf[..n]) == if n < 6 + |e.value| then None else Some((e, rest[..n - 6 - |e.value|]))
  {
    hide LE;
    Powers();
    var tag, len, v := LE(e.tag, 2), LE(|e.value|, 4), e.value;
    var buf := tag + (len + (v + rest));
    if n >= 6 + |v| {
      assert buf[..n] == tag + (len + (v + rest[..n - 6 - |v|]));
      TakesExt(e, rest[..n - 6 - |v|]);
    } else if n >= 6 {
      assert buf[..n] == tag + (len + (v + rest)[..n - 6]);
      TakesUint(e.tag, 2, len + (v + rest)[..n - 6]);
      TakesUint(|v|, 4, (v + rest)[..n - 6]);
    } else if n >= 2 {
      assert buf[..n] == tag + (len + (v + rest))[..n - 2];
      TakesUint(e.tag, 2, (len + (v + rest))[..n - 2]);
    }
  }

  /** Extensions that would be collected, with their end missing. */
  lemma {:induction false} CutExts(s: Schema, es: seq<Ext>, n: nat, acc: map<Tag, Value>)
    requires AllShort(es) && n < |PutExts(es, [])| && CollectAll(s, es, acc).Ok?
    ensures TakeExts(s, |es|, PutExts(es, [])[..n], acc) == Err(Truncated)
    decreases |es|
  {
    hide LE, TakeExt, Collect;
    var e, rest := es[0], PutExts(es[1..], []);
    CutExt(e, rest, n);
    if n >= 6 + |e.value| {
      CutExts(s, es[1..], n - 6 - |e.value|, Collect(s, e, acc).value);
    }
  }

  /** A message with any of its end missing is refused as truncated. */
  lemma CutIsRefused(s: Schema, m: Msg, n: nat)
    requires ValidSchema(s) && ValidMsg(s, m) && n < |Encode(s, m)|
    ensures Decode(s, Encode(s, m)[..n]) == Err(Truncated)
  {
    hide LE, PutFields, PutExts, TakeFields, TakeExts, ExtsOf, CollectAll;
    var es := ExtsOf(s, m, s.order);
    var count, exts := LE(|es|, 2), PutExts(es, []);
    CollectsWritten(s, m, s.order, map[]);
    CutFields(s.fields, m.fixed, count + exts, n);
    var k := |PutFields(s.fields, m.fixed, [])|;
    Powers();
    if n >= k + 2 {
      assert (count + exts)[..n - k] == count + exts[..n - k - 2];
      TakesUint(|es|, 2, exts[..n - k - 2]);
      CutExts(s, es, n - k - 2, map[]);
    }
  }
}
