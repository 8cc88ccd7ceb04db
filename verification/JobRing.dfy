/** The statuses of recent install jobs: a ring of 16 slots keyed by job id
    (payload/installer/jobs.c, payload/installer/jobs.h). */
module JobRing {
  import opened Bytes
  import opened Wrappers

  const RING: nat := 16

  /** Room for an id, its NUL included (`INST_JOBID_MAX`). */
  const ID_MAX: nat := 64

  datatype Phase = NoJob | Serving | Accepted | Done | Failed

  datatype Status = Status(phase: Phase, code: nat, bytesServed: nat, total: nat)

  /** A slot with an empty id is free, or was put under an empty id. */
  datatype Slot = Slot(id: CString, status: Status)

  datatype Ring = Ring(slots: seq<Slot>, next: nat, count: nat)

  // ---- The code's steps, on values

  /** What `snprintf` leaves in an id field. */
  function Cut(id: CString): CString {
    if |id| < ID_MAX then id else id[..ID_MAX - 1]
  }

  predicate Names(s: Slot, id: CString) {
    s.id != [] && s.id == id
  }

  /** The first slot from `i` on that holds `id`. */
  function Find(slots: seq<Slot>, id: CString, i: nat): (r: Option<nat>)
    requires i <= |slots|
    ensures r.Some? ==> i <= r.value < |slots| && Names(slots[r.value], id)
    ensures forall k | i <= k < (if r.Some? then r.value else |slots|) :: !Names(slots[k], id)
    decreases |slots| - i
  {
    if i == |slots| then None
    else if Names(slots[i], id) then Some(i)
    else Find(slots, id, i + 1)
  }

  ghost predicate Shaped(r: Ring) {
    |r.slots| == RING && r.next < RING && r.count <= RING
  }

  const FREE: Slot := Slot([], Status(NoJob, 0, 0, 0))

  function FreeSlots(n: nat): (s: seq<Slot>)
    ensures |s| == n && forall i | 0 <= i < n :: s[i] == FREE
  {
    seq(n, _ => FREE)
  }

  /** `inst_ring_reset` */
  function Empty(): (r: Ring)
    ensures Inv(r) && Queue(r) == []
  {
    Ring(FreeSlots(RING), 0, 0)
  }

  function Put(r: Ring, id: CString, st: Status): Ring
    requires Shaped(r)
  {
    match Find(r.slots, id, 0)
    case Some(i) => r.(slots := r.slots[i := Slot(r.slots[i].id, st)])
    case None => Push(r, Slot(Cut(id), st))
  }

  /** Writing at the cursor. */
  function Push(r: Ring, slot: Slot): Ring
    requires Shaped(r)
  {
    Ring(r.slots[r.next := slot], (r.next + 1) % RING, if r.count < RING then r.count + 1 else r.count)
  }

  function Get(r: Ring, id: CString): Option<Status>
    requires Shaped(r)
  {
    match Find(r.slots, id, 0)
    case Some(i) => Some(r.slots[i].status)
    case None => None
  }

  // ---- The ring as a queue, oldest first

  function Queue(r: Ring): seq<Slot>
    requires Shaped(r)
  {
    Turned(r.slots, r.next, r.count)
  }

  function Turned<T>(s: seq<T>, next: nat, count: nat): seq<T>
    requires next <= |s| && count <= |s|
  {
    if count < |s| then s[..count] else s[next..] + s[..next]
  }

  /** What every run keeps: slots fill from 0, and every id is stored whole with its NUL. */
  ghost predicate Inv(r: Ring) {
    && Shaped(r)
    && (r.count < RING ==> r.next == r.count)
    && (forall i | r.count <= i < RING :: r.slots[i].id == [])
    && (forall i | 0 <= i < RING :: |r.slots[i].id| < ID_MAX)
  }

  predicate Holds(q: seq<Slot>, id: CString) {
    id != [] && exists i :: 0 <= i < |q| && q[i].id == id
  }

  /** A queue of 16 with one more entry; a full one loses its oldest. */
  function Pushed(q: seq<Slot>, slot: Slot): seq<Slot> {
    (if |q| < RING then q else q[1..]) + [slot]
  }

  /** The slot of the queue's entry `k`. */
  function SlotOf(r: Ring, k: nat): (i: nat)
    requires Shaped(r) && k < |Queue(r)|
    ensures i < r.count && Queue(r)[k] == r.slots[i]
  {
    if r.count < RING then k else if k < RING - r.next then k + r.next else k + r.next - RING
  }

  /** Every slot in use is somewhere in the queue, and the queue holds nothing else. */
  lemma QueueIndex(r: Ring, i: nat) returns (k: nat)
    requires Shaped(r) && i < r.count
    ensures k < |Queue(r)| && SlotOf(r, k) == i
    ensures forall j | 0 <= j < |Queue(r)| && j != k :: SlotOf(r, j) != i
  {
    k := if r.count < RING then i else if i >= r.next then i - r.next else i + RING - r.next;
  }

  lemma RestatesOne(r: Ring, i: nat, slot: Slot) returns (k: nat)
    requires Shaped(r) && i < r.count
    ensures k < |Queue(r)| && Queue(r)[k] == r.slots[i]
    ensures Queue(r.(slots := r.slots[i := slot])) == Queue(r)[k := slot]
  {
    k := QueueIndex(r, i);
    var r' := r.(slots := r.slots[i := slot]);
    forall j | 0 <= j < |Queue(r)| ensures Queue(r')[j] == Queue(r)[k := slot][j] {
      assert SlotOf(r', j) == SlotOf(r, j);
    }
  }

  /** Searching the slots and searching the queue agree. */
  lemma FindsWhatTheQueueHolds(r: Ring, id: CString)
    requires Inv(r)
    ensures Find(r.slots, id, 0).Some? <==> Holds(Queue(r), id)
  {
    var f := Find(r.slots, id, 0);
    if f.Some? {
      var k := QueueIndex(r, f.value);
      assert Queue(r)[k].id == id;
    } else if Holds(Queue(r), id) {
      var k :| 0 <= k < |Queue(r)| && Queue(r)[k].id == id;
      assert Names(r.slots[SlotOf(r, k)], id);
      assert false;
    }
  }

  /** One put is one put on a queue of 16, for any id: one entry that has it is restated in its place;
      when none has it, the id as it can be stored comes in last and a full queue loses its oldest. */
  lemma PutIsQueuePut(r: Ring, id: CString, st: Status) returns (k: nat)
    requires Inv(r)
    ensures Inv(Put(r, id, st))
    ensures var q, q' := Queue(r), Queue(Put(r, id, st));
            && (Holds(q, id) ==> k < |q| && q[k].id == id && q' == q[k := Slot(id, st)])
            && (!Holds(q, id) ==> q' == Pushed(q, Slot(Cut(id), st)))
  {
    FindsWhatTheQueueHolds(r, id);
    match Find(r.slots, id, 0)
    case Some(i) =>
      k := RestatesOne(r, i, Slot(id, st));
    case None =>
      k := 0;
      PushKeepsInv(r, Slot(Cut(id), st));
      PushAppends(r, Slot(Cut(id), st));
  }

  lemma PushKeepsInv(r: Ring, slot: Slot)
    requires Inv(r) && |slot.id| < ID_MAX
    ensures Inv(Push(r, slot))
  {
    assert r.next + 1 < RING ==> (r.next + 1) % RING == r.next + 1;
  }

  /** Overwriting the slot at the cursor and stepping past it drops the oldest and appends the newest. */
  lemma PushAppends(r: Ring, slot: Slot)
    requires Shaped(r) && (r.count < RING ==> r.next == r.count)
    ensures Queue(Push(r, slot)) == Pushed(Queue(r), slot)
  {
    var next' := (r.next + 1) % RING;
    assert next' == if r.next + 1 == RING then 0 else r.next + 1;
    if r.count < RING {
      TurnedFills(r.slots, r.next, next', slot);
    } else {
      TurnedTurns(r.slots, r.next, next', slot);
    }
  }

  lemma TurnedFills<T>(s: seq<T>, n: nat, next': nat, x: T)
    requires n < |s| && next' == if n + 1 == |s| then 0 else n + 1
    ensures Turned(s[n := x], next', n + 1) == Turned(s, n, n) + [x]
  {
    var s' := s[n := x];
    assert n + 1 == |s| ==> s'[0..] + s'[..0] == s'[..n + 1];
    assert s'[..n + 1] == s[..n] + [x];
  }

  lemma TurnedTurns<T>(s: seq<T>, n: nat, next': nat, x: T)
    requires n < |s| && next' == if n + 1 == |s| then 0 else n + 1
    ensures Turned(s[n := x], next', |s|) == Turned(s, n, |s|)[1..] + [x]
  {
    var s', now, was := s[n := x], Turned(s[n := x], next', |s|), Turned(s, n, |s|);
    forall k | 0 <= k < |s| ensures now[k] == (was[1..] + [x])[k] {
      if k + 1 < |s| {
        assert (was[1..] + [x])[k] == was[k + 1];
        assert now[k] == s'[if k + n + 1 < |s| then k + n + 1 else k + n + 1 - |s|];
      }
    }
  }

  // ---- Runs, against the history alone

  datatype Call = Call(id: CString, status: Status)

  function Exec(calls: seq<Call>): (r: Ring)
    ensures Shaped(r)
  {
    if calls == [] then Empty()
    else Put(Exec(calls[..|calls| - 1]), calls[|calls| - 1].id, calls[|calls| - 1].status)
  }

  /** The last status put under `id`. */
  function Latest(calls: seq<Call>, id: CString): Option<Status> {
    if calls == [] then None
    else if calls[|calls| - 1].id == id then Some(calls[|calls| - 1].status)
    else Latest(calls[..|calls| - 1], id)
  }

  function LastOnes(ids: seq<CString>): seq<CString> {
    if |ids| <= 16 then ids else ids[|ids| - 16..]
  }

  /** The ids as stored, in the order they came in: an id comes in when it is put and is not one of the
      last 16 that did. An empty id, and one too long to be stored whole, comes in every time. */
  function Arrivals(calls: seq<Call>): seq<CString> {
    if calls == [] then []
    else Arrive(Arrivals(calls[..|calls| - 1]), calls[|calls| - 1].id)
  }

  function Arrive(before: seq<CString>, id: CString): seq<CString> {
    if id != [] && id in LastOnes(before) then before else before + [if |id| < 64 then id else id[..63]]
  }

  function IdsOf(q: seq<Slot>): seq<CString> {
    seq(|q|, i requires 0 <= i < |q| => q[i].id)
  }

  /** The queue's ids are the last 16 arrivals. */
  lemma ArrivalsNext(r: Ring, calls: seq<Call>, c: Call)
    requires Inv(r) && IdsOf(Queue(r)) == LastOnes(Arrivals(calls))
    ensures Inv(Put(r, c.id, c.status))
    ensures IdsOf(Queue(Put(r, c.id, c.status))) == LastOnes(Arrivals(calls + [c]))
  {
    hide Queue, Put, IdsOf, LastOnes;
    var q, ids := Queue(r), Arrivals(calls);
    var k := PutIsQueuePut(r, c.id, c.status);
    assert (calls + [c])[..|calls|] == calls;
    IdsMean(q, c.id);
    if Holds(q, c.id) {
      IdsRestated(q, k, Slot(c.id, c.status));
    } else {
      IdsPushed(q, Slot(Cut(c.id), c.status));
      LastPushed(ids, Cut(c.id));
    }
  }

  lemma IdsMean(q: seq<Slot>, id: CString)
    ensures Holds(q, id) <==> id != [] && id in IdsOf(q)
  {
    assert forall i | 0 <= i < |q| :: IdsOf(q)[i] == q[i].id;
  }

  lemma IdsRestated(q: seq<Slot>, k: nat, slot: Slot)
    requires k < |q| && q[k].id == slot.id
    ensures IdsOf(q[k := slot]) == IdsOf(q)
  {
  }

  lemma IdsPushed(q: seq<Slot>, slot: Slot)
    ensures IdsOf(Pushed(q, slot)) == (if |IdsOf(q)| < RING then IdsOf(q) else IdsOf(q)[1..]) + [slot.id]
  {
  }

  lemma LastPushed(ids: seq<CString>, id: CString)
    ensures LastOnes(ids + [id]) == (if |LastOnes(ids)| < RING then LastOnes(ids) else LastOnes(ids)[1..]) + [id]
  {
  }

  lemma {:induction false} RunArrivals(calls: seq<Call>)
    ensures Inv(Exec(calls)) && IdsOf(Queue(Exec(calls))) == LastOnes(Arrivals(calls))
  {
    if calls != [] {
      var front, c := calls[..|calls| - 1], calls[|calls| - 1];
      RunArrivals(front);
      ArrivalsNext(Exec(front), front, c);
      assert front + [c] == calls;
    }
  }

  /** After any run at all, a query finds exactly the non-empty ids among the last 16 to come in. */
  lemma FoundIffAmongTheLastSixteen(calls: seq<Call>, id: CString)
    ensures Get(Exec(calls), id).Some? <==> id != [] && id in LastOnes(Arrivals(calls))
  {
    RunArrivals(calls);
    var q := Queue(Exec(calls));
    assert forall i | 0 <= i < |q| :: IdsOf(q)[i] == q[i].id;
    FindsWhatTheQueueHolds(Exec(calls), id);
  }

  /** No longer id that was put is cut to this one. */
  ghost predicate NotACut(calls: seq<Call>, id: CString) {
    forall c | c in calls && Cut(c.id) == id :: c.id == id
  }

  /** At most one entry has the id, with the last status put under it. */
  ghost predicate HasLatest(q: seq<Slot>, calls: seq<Call>, id: CString) {
    && (forall i | 0 <= i < |q| && q[i].id == id :: Latest(calls, id) == Some(q[i].status))
    && (forall i, j | 0 <= i < j < |q| && q[i].id == id :: q[j].id != id)
  }

  lemma LatestNext(r: Ring, calls: seq<Call>, c: Call, id: CString)
    requires Inv(r) && HasLatest(Queue(r), calls, id) && id != [] && (Cut(c.id) == id ==> c.id == id)
    ensures Inv(Put(r, c.id, c.status)) && HasLatest(Queue(Put(r, c.id, c.status)), calls + [c], id)
  {
    hide Queue, Put, HasLatest;
    var q := Queue(r);
    var k := PutIsQueuePut(r, c.id, c.status);
    if Holds(q, c.id) {
      LatestRestated(q, k, calls, c, id);
    } else {
      LatestPushed(q, calls, c, id);
    }
  }

  lemma LatestAppended(calls: seq<Call>, c: Call, id: CString)
    ensures Latest(calls + [c], id) == if c.id == id then Some(c.status) else Latest(calls, id)
  {
    assert (calls + [c])[..|calls|] == calls;
  }

  lemma LatestRestated(q: seq<Slot>, k: nat, calls: seq<Call>, c: Call, id: CString)
    requires HasLatest(q, calls, id) && k < |q| && q[k].id == c.id
    ensures HasLatest(q[k := Slot(c.id, c.status)], calls + [c], id)
  {
    LatestAppended(calls, c, id);
    var q' := q[k := Slot(c.id, c.status)];
    assert forall i | 0 <= i < |q| :: q'[i].id == q[i].id && (i != k ==> q'[i] == q[i]);
  }

  lemma LatestPushed(q: seq<Slot>, calls: seq<Call>, c: Call, id: CString)
    requires HasLatest(q, calls, id) && !Holds(q, c.id) && id != [] && (Cut(c.id) == id ==> c.id == id)
    ensures HasLatest(Pushed(q, Slot(Cut(c.id), c.status)), calls + [c], id)
  {
    hide Latest;
    LatestAppended(calls, c, id);
    var q', d := Pushed(q, Slot(Cut(c.id), c.status)), if |q| < RING then 0 else 1;
    forall i | 0 <= i < |q'| - 1
      ensures q'[i] == q[i + d] && (q'[i].id == id ==> c.id != id && Latest(calls, id) == Some(q'[i].status))
    {
    }
    forall i, j | 0 <= i < j < |q'| && q'[i].id == id ensures q'[j].id != id {
      assert j < |q'| - 1 ==> q'[j] == q[j + d];
    }
  }

  lemma {:induction false} RunHasLatest(calls: seq<Call>, id: CString)
    requires NotACut(calls, id) && id != []
    ensures Inv(Exec(calls)) && HasLatest(Queue(Exec(calls)), calls, id)
  {
    if calls != [] {
      var front, c := calls[..|calls| - 1], calls[|calls| - 1];
      assert c in calls;
      RunHasLatest(front, id);
      LatestNext(Exec(front), front, c, id);
      assert front + [c] == calls;
    }
  }

  /** After any run, a query for an id that no longer one was cut to finds it exactly when it is non-empty
      and among the last 16 to come in, and answers with the last status put under it. */
  lemma GetIsLatestOfTheLastSixteen(calls: seq<Call>, id: CString)
    requires NotACut(calls, id)
    ensures Get(Exec(calls), id)
         == if id != [] && id in LastOnes(Arrivals(calls)) then Latest(calls, id) else None
  {
    FoundIffAmongTheLastSixteen(calls, id);
    var r := Exec(calls);
    var f := Find(r.slots, id, 0);
    if f.Some? {
      RunHasLatest(calls, id);
      var k := QueueIndex(r, f.value);
    }
  }

  // ---- The ring as the end of an unbounded log

  /** The latest arrival, of `len`, that went into slot `i`. */
  function ArrivalAt(len: nat, i: nat): (n: nat)
    requires i < len && i < RING
    ensures n < len <= n + RING && n % RING == i
  {
    len - 1 - (len - 1 - i) % RING
  }

  /** The ring that holds the last 16 arrivals, each in the slot of its number. */
  function RingOf(log: seq<Slot>): (r: Ring)
    ensures Shaped(r)
  {
    Ring(LastBySlot(log), |log| % RING, if |log| < RING then |log| else RING)
  }

  function LastBySlot(log: seq<Slot>): (s: seq<Slot>)
    ensures |s| == RING
    ensures forall i | 0 <= i < RING :: s[i] == if i < |log| then log[ArrivalAt(|log|, i)] else FREE
  {
    seq(RING, i requires 0 <= i < RING => if i < |log| then log[ArrivalAt(|log|, i)] else FREE)
  }

  /** Among the last 16 arrivals stored under `id`, the one in the lowest slot. */
  function Answering(log: seq<Slot>, id: CString): (n: Option<nat>)
    ensures n.Some? ==> n.value < |log| <= n.value + RING && Names(log[n.value], id)
  {
    match Find(LastBySlot(log), id, 0)
    case Some(i) => Some(ArrivalAt(|log|, i))
    case None => None
  }

  /** A put on the log: the answering arrival is restated, or a new one comes in. */
  function LogPut(log: seq<Slot>, id: CString, st: Status): seq<Slot> {
    match Answering(log, id)
    case Some(n) => log[n := Slot(id, st)]
    case None => log + [Slot(Cut(id), st)]
  }

  function LogOf(calls: seq<Call>): seq<Slot> {
    if calls == [] then []
    else LogPut(LogOf(calls[..|calls| - 1]), calls[|calls| - 1].id, calls[|calls| - 1].status)
  }

  lemma LogStep(log: seq<Slot>, id: CString, st: Status)
    ensures Put(RingOf(log), id, st) == RingOf(LogPut(log, id, st))
  {
    hide LastBySlot, ArrivalAt;
    var slots := LastBySlot(log);
    match Find(slots, id, 0)
    case Some(i) => RestatedLog(log, i, Slot(id, st));
    case None => LongerLog(log, Slot(Cut(id), st));
  }

  lemma RestatedLog(log: seq<Slot>, i: nat, slot: Slot)
    requires i < RING && i < |log|
    ensures LastBySlot(log[ArrivalAt(|log|, i) := slot]) == LastBySlot(log)[i := slot]
  {
  }

  lemma LongerLog(log: seq<Slot>, slot: Slot)
    ensures RingOf(log + [slot]) == Push(RingOf(log), slot)
  {
    var now, was := LastBySlot(log + [slot]), LastBySlot(log);
    forall i | 0 <= i < RING ensures now[i] == was[|log| % RING := slot][i] {
      LaterArrival(|log|, i);
    }
    assert (|log| + 1) % RING == (|log| % RING + 1) % RING;
  }

  lemma LaterArrival(len: nat, i: nat)
    requires i < RING
    ensures i == len % RING ==> i <= len && ArrivalAt(len + 1, i) == len
    ensures i != len % RING ==> (i < len <==> i < len + 1) && (i < len ==> ArrivalAt(len + 1, i) == ArrivalAt(len, i))
  {
  }

  lemma {:induction false} RunIsLog(calls: seq<Call>)
    ensures Exec(calls) == RingOf(LogOf(calls))
    decreases |calls|
  {
    if calls == [] {
      assert Empty().slots == LastBySlot([]);
    } else {
      var n := |calls| - 1;
      RunIsLog(calls[..n]);
      LogStep(LogOf(calls[..n]), calls[n].id, calls[n].status);
    }
  }

  /** What a query answers after any run, for any id, cut ones included: the status now held by the arrival in the
      lowest slot among the last 16 stored under that id. */
  lemma GetAnswersFromTheLog(calls: seq<Call>, id: CString)
    ensures var log := LogOf(calls);
            Get(Exec(calls), id)
            == match Answering(log, id) case None => None case Some(n) => Some(log[n].status)
  {
    RunIsLog(calls);
  }

  /** Without that: after one put under an id of 64 bytes, its first 63 answer for it, though nothing was
      ever put under those. */
  lemma CutIdAnswersForAnother(id: CString, st: Status)
    requires |id| == 64
    ensures var calls := [Call(id, st)];
            Get(Exec(calls), id[..63]) == Some(st) && Latest(calls, id[..63]) == None && Get(Exec(calls), id) == None
  {
    var calls := [Call(id, st)];
    assert calls[..0] == [];
    assert Exec(calls) == Put(Empty(), id, st);
    assert Latest([], Cut(id)) == None;
    PutThenGetIff(Empty(), id, st);
    assert Exec(calls).slots[0] == Slot(Cut(id), st);
  }

  /** The second put of an id restates what the first one put, in place and with the cursor where it was, if
      and only if the id is neither empty nor too long to be stored whole; otherwise it takes a new slot. */
  lemma UpdatesInPlaceIff(r: Ring, id: CString, a: Status, b: Status)
    requires Shaped(r) && forall i | 0 <= i < RING :: |r.slots[i].id| < ID_MAX
    ensures Put(Put(r, id, a), id, b).next == Put(r, id, a).next <==> 0 < |id| < 64
    ensures 0 < |id| < 64 ==> Put(Put(r, id, a), id, b) == Put(r, id, b)
    ensures !(0 < |id| < 64) ==> Put(Put(r, id, a), id, b) == Push(Put(r, id, a), Slot(Cut(id), b))
  {
    var r1 := Put(r, id, a);
    PutThenGetIff(r, id, a);
    assert (r1.next + 1) % RING != r1.next;
    if 0 < |id| < ID_MAX {
      var i := Find(r.slots, id, 0);
      var at := if i.Some? then i.value else r.next;
      assert forall k | 0 <= k < RING && k != at :: r1.slots[k] == r.slots[k];
      assert Names(r1.slots[at], id) && Find(r1.slots, id, 0) == Some(at);
      assert Put(r1, id, b).slots == Put(r, id, b).slots;
    }
  }

  /** What was just put can be asked for exactly when its id is neither empty nor too
      long to be stored whole; a longer one is stored cut and takes a new slot each time. */
  lemma PutThenGetIff(r: Ring, id: CString, st: Status)
    requires Shaped(r) && forall i | 0 <= i < RING :: |r.slots[i].id| < ID_MAX
    ensures Get(Put(r, id, st), id) == Some(st) <==> 0 < |id| < 64
    ensures !(0 < |id| < 64) ==> Get(Put(r, id, st), id) == None
  {
    var r' := Put(r, id, st);
    assert forall i | 0 <= i < RING :: |r'.slots[i].id| < ID_MAX;
    match Find(r.slots, id, 0)
    case Some(i) =>
      assert forall k | 0 <= k < i :: r'.slots[k] == r.slots[k];
      assert r'.slots[i].id == id;
    case None =>
      assert forall k | 0 <= k < RING && k != r.next :: r'.slots[k] == r.slots[k];
      assert r'.slots[r.next].id == Cut(id);
  }

  // ---- The ring in place

  /** The slots whose ids and statuses are kept in two parallel arrays. */
  function Paired(ids: seq<CString>, statuses: seq<Status>): (r: seq<Slot>)
    requires |ids| == |statuses|
    ensures |r| == |ids| && forall i | 0 <= i < |r| :: r[i] == Slot(ids[i], statuses[i])
  {
    seq(|ids|, i requires 0 <= i < |ids| => Slot(ids[i], statuses[i]))
  }

  class Jobs {
    const ids: array<CString>
    const statuses: array<Status>
    var next: nat
    var count: nat

    ghost predicate Valid()
      reads this
    {
      ids.Length == RING == statuses.Length && next < RING && count <= RING
    }

    ghost function View(): (r: Ring)
      requires Valid()
      reads this, ids, statuses
      ensures Shaped(r)
    {
      Ring(Paired(ids[..], statuses[..]), next, count)
    }

    /** `inst_ring_reset` on a new ring */
    constructor ()
      ensures Valid() && fresh(ids) && fresh(statuses) && View() == Empty()
    {
      ids := new CString[RING](_ => []);
      statuses := new Status[RING](_ => FREE.status);
      next, count := 0, 0;
      new;
      assert View().slots == Empty().slots;
    }

    /** `ring_find` */
    method RingFind(id: CString) returns (slot: Option<nat>)
      requires Valid()
      ensures slot == Find(View().slots, id, 0)
    {
      for i := 0 to RING
        invariant Find(View().slots, id, 0) == Find(View().slots, id, i)
      {
        if ids[i] != [] && ids[i] == id {
          return Some(i);
        }
      }
      return None;
    }

    /** `inst_ring_put`; the answer is the slot written. */
    method RingPut(id: CString, st: Status) returns (i: nat)
      requires Valid()
      modifies this, ids, statuses
      ensures Valid() && View() == Put(old(View()), id, st)
      ensures i == match Find(old(View().slots), id, 0) case Some(k) => k case None => old(next)
    {
      ghost var was := View();
      var slot := RingFind(id);
      if slot.Some? {
        i := slot.value;
      } else {
        i := next;
        next := (next + 1) % RING;
        if count < RING {
          count := count + 1;
        }
        ids[i] := Cut(id);
      }
      statuses[i] := st;
      assert View().slots == Put(was, id, st).slots;
    }

    /** `inst_ring_get` */
    method RingGet(id: CString) returns (st: Option<Status>)
      requires Valid()
      ensures st == Get(View(), id)
    {
      var slot := RingFind(id);
      return if slot.Some? then Some(statuses[slot.value]) else None;
    }
  }
}
