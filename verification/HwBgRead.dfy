/** A device read kept off the request's thread (payload/include/hw_bg_read.h): one reader at a time,
    its buffer handed over at most once. Any number of requests and readers interleave; each stretch
    that holds the mutex is one step. */
module HwBgRead {

  /** What a read leaves in the buffer. */
  type Data = nat

  /** The fields under the mutex, and the buffer. */
  datatype Fields = Fields(running: bool, have: bool, buf: Data)

  // ---- The critical sections

  /** `hw_bg_read_begin` up to its first unlock: whether this call may start a reader. */
  function Claim(f: Fields): (Fields, bool) {
    if f.running then (f, false) else (f.(running := true, have := false), true)
  }

  /** After a spawn that failed. */
  function Release(f: Fields): Fields {
    f.(running := false)
  }

  /** The end of `hw_bg_read_thread`. */
  function Publish(f: Fields): Fields {
    f.(have := true, running := false)
  }

  /** `hw_bg_read_take`: the data, once. */
  function Take(f: Fields): (Fields, bool) {
    if !f.running && f.have then (f.(have := false), true) else (f, false)
  }

  // ---- All threads together

  /** A read handed to a request: which begin it belongs to, and its data. */
  datatype Delivery = Delivery(begun: nat, data: Data, latest: nat)

  datatype State = State(
    fields: Fields,
    begins: nat,                 // begins that claimed the device so far
    starting: map<nat, nat>,     // requests between their claim and the spawn, with their begin
    readers: map<nat, nat>,      // threads inside the read, with their begin
    finished: map<nat, Data>,    // what each finished read left
    delivered: seq<Delivery>)

  const START: State := State(Fields(false, false, 0), 0, map[], map[], map[], [])

  datatype Event =
    | Begin(t: nat)
    | SpawnWorks(t: nat)
    | SpawnFails(t: nat)
    | ReaderWrites(w: nat, data: Data)
    | ReaderDone(w: nat)
    | TakeBy(t: nat)

  /** One step; an event that cannot happen here leaves the state alone. A reader is known by the number
      of its begin. */
  function Step(s: State, e: Event): State {
    match e
    case Begin(t) =>
      var (f, claimed) := Claim(s.fields);
      if t in s.starting || !claimed then s
      else s.(fields := f, begins := s.begins + 1, starting := s.starting[t := s.begins + 1])
    case SpawnWorks(t) =>
      if t !in s.starting then s
      else s.(starting := s.starting - {t}, readers := s.readers[s.starting[t] := s.starting[t]])
    case SpawnFails(t) =>
      if t !in s.starting then s
      else s.(starting := s.starting - {t}, fields := Release(s.fields))
    case ReaderWrites(w, data) =>
      if w !in s.readers then s else s.(fields := s.fields.(buf := data))
    case ReaderDone(w) =>
      if w !in s.readers then s
      else s.(readers := s.readers - {w}, fields := Publish(s.fields),
              finished := s.finished[s.readers[w] := s.fields.buf])
    case TakeBy(t) =>
      var (f, ok) := Take(s.fields);
      if !ok then s
      else s.(fields := f, delivered := s.delivered + [Delivery(Holder(s), s.fields.buf, s.begins)])
  }

  /** The begin whose read the buffer holds, when there is one to take. */
  function Holder(s: State): nat {
    if s.begins in s.finished then s.begins else 0
  }

  function Exec(s: State, events: seq<Event>): State
    decreases |events|
  {
    if events == [] then s else Exec(Step(s, events[0]), events[1..])
  }

  // ---- What every step keeps

  /** The device has one owner, a request about to spawn or a reader, exactly while `running` is set;
      it is the latest begin. */
  ghost predicate OneOwner(s: State) {
    && (!s.fields.running <==> s.starting == map[] && s.readers == map[])
    && (s.fields.running ==>
          || (s.readers == map[] && exists t :: s.starting == map[t := s.begins])
          || (s.starting == map[] && s.readers == map[s.begins := s.begins]))
    && (s.fields.running ==> s.begins > 0 && s.begins !in s.finished)
  }

  /** A read to take is the latest begin's, finished, untouched since and not yet delivered. */
  ghost predicate Fresh(s: State) {
    s.fields.have ==>
      && !s.fields.running && s.begins in s.finished && s.finished[s.begins] == s.fields.buf
      && (s.delivered != [] ==> s.delivered[|s.delivered| - 1].begun < s.begins)
  }

  ghost predicate DeliveriesGood(s: State) {
    && (forall i | 0 <= i < |s.delivered| ::
          var d := s.delivered[i];
          0 < d.begun <= s.begins && d.begun == d.latest && d.begun in s.finished && s.finished[d.begun] == d.data)
    && (forall i, j | 0 <= i < j < |s.delivered| :: s.delivered[i].begun < s.delivered[j].begun)
  }

  ghost predicate Inv(s: State) {
    OneOwner(s) && Fresh(s) && DeliveriesGood(s) && (forall b | b in s.finished :: 0 < b <= s.begins)
  }

  lemma StepKeepsInv(s: State, e: Event)
    requires Inv(s)
    ensures Inv(Step(s, e))
  {
    match e
    case Begin(t) => BeginKeeps(s, t);
    case SpawnWorks(t) => SpawnKeeps(s, t, true);
    case SpawnFails(t) => SpawnKeeps(s, t, false);
    case ReaderWrites(w, data) =>
    case ReaderDone(w) => DoneKeeps(s, w);
    case TakeBy(t) =>
  }

  lemma BeginKeeps(s: State, t: nat)
    requires Inv(s)
    ensures Inv(Step(s, Begin(t)))
  {
    if !s.fields.running {
      assert Step(s, Begin(t)).starting == map[t := s.begins + 1];
    }
  }

  lemma SpawnKeeps(s: State, t: nat, works: bool)
    requires Inv(s)
    ensures Inv(Step(s, if works then SpawnWorks(t) else SpawnFails(t)))
  {
    if t in s.starting {
      assert s.fields.running;
      var u :| s.starting == map[u := s.begins];
      assert t == u;
      var s' := Step(s, if works then SpawnWorks(t) else SpawnFails(t));
      assert s'.starting == map[];
      assert s'.readers == if works then map[s.begins := s.begins] else map[];
      assert works ==> s.begins in s'.readers;
    }
  }

  lemma DoneKeeps(s: State, w: nat)
    requires Inv(s)
    ensures Inv(Step(s, ReaderDone(w)))
  {
    if w in s.readers {
      assert s.readers == map[s.begins := s.begins];
      assert Step(s, ReaderDone(w)).readers == map[];
    }
  }

  lemma {:induction false} ExecKeepsInv(s: State, events: seq<Event>)
    requires Inv(s)
    ensures Inv(Exec(s, events))
    decreases |events|
  {
    if events != [] {
      StepKeepsInv(s, events[0]);
      ExecKeepsInv(Step(s, events[0]), events[1..]);
    }
  }

  /** In every run at most one thread is inside the device read, none while nothing is marked running,
      and every delivery is of the begin that was then the latest, carries what that read left, and
      happens at most once per begin. */
  lemma OneReaderOneDelivery(events: seq<Event>)
    ensures var s := Exec(START, events);
            && |s.readers| + |s.starting| <= 1
            && (s.fields.running <==> |s.readers| + |s.starting| == 1)
            && (forall i | 0 <= i < |s.delivered| ::
                  && s.delivered[i].begun == s.delivered[i].latest
                  && s.delivered[i].begun in s.finished
                  && s.finished[s.delivered[i].begun] == s.delivered[i].data)
            && (forall i, j | 0 <= i < j < |s.delivered| :: s.delivered[i].begun != s.delivered[j].begun)
  {
    ExecKeepsInv(START, events);
    var s := Exec(START, events);
    if s.fields.running && s.readers == map[] {
      var t :| s.starting == map[t := s.begins];
      assert |s.starting| == 1;
    }
  }

  /** The latest begin's read has finished and no request has had it yet. */
  ghost predicate Waiting(s: State) {
    s.begins in s.finished && forall i | 0 <= i < |s.delivered| :: s.delivered[i].begun != s.begins
  }

  lemma StepKeepsWaiting(s: State, e: Event)
    requires Inv(s) && (s.fields.have <==> Waiting(s))
    ensures Inv(Step(s, e)) && (Step(s, e).fields.have <==> Waiting(Step(s, e)))
  {
    StepKeepsInv(s, e);
    var s' := Step(s, e);
    if e.TakeBy? && Take(s.fields).1 {
      assert s'.delivered[|s.delivered|].begun == s.begins;
    }
    if e.ReaderDone? && e.w in s.readers {
      assert s.readers == map[s.begins := s.begins];
    }
  }

  lemma {:induction false} ExecKeepsWaiting(s: State, events: seq<Event>)
    requires Inv(s) && (s.fields.have <==> Waiting(s))
    ensures Inv(Exec(s, events)) && (Exec(s, events).fields.have <==> Waiting(Exec(s, events)))
    decreases |events|
  {
    if events != [] {
      StepKeepsWaiting(s, events[0]);
      ExecKeepsWaiting(Step(s, events[0]), events[1..]);
    }
  }

  /** After any run: a take is given a read if and only if the latest begin's has finished and nobody has had it,
      and it is that read's data; and a begin may start a reader if and only if no thread is reading or about to. */
  lemma DeliversAndClaimsExactly(events: seq<Event>, t: nat)
    ensures var s := Exec(START, events);
            && (Waiting(s) ==>
                  Step(s, TakeBy(t)).delivered == s.delivered + [Delivery(s.begins, s.finished[s.begins], s.begins)])
            && (!Waiting(s) ==> Step(s, TakeBy(t)) == s)
            && (s.starting == map[] && s.readers == map[] ==>
                  Step(s, Begin(t)).begins == s.begins + 1 && Step(s, Begin(t)).starting == map[t := s.begins + 1])
            && (!(s.starting == map[] && s.readers == map[]) ==> Step(s, Begin(t)) == s)
  {
    ExecKeepsWaiting(START, events);
  }

  /** The buffer is copied out only while no thread can be writing it. */
  lemma NoCopyWhileReading(events: seq<Event>, t: nat)
    ensures var s := Exec(START, events);
            |Step(s, TakeBy(t)).delivered| > |s.delivered| ==> s.readers == map[] && s.starting == map[]
  {
    ExecKeepsInv(START, events);
  }

  // ---- The state object

  class BgRead {
    var running: bool
    var have: bool
    var buf: Data

    ghost function View(): Fields
      reads this
    {
      Fields(running, have, buf)
    }

    constructor ()
      ensures View() == Fields(false, false, 0)
    {
      running, have, buf := false, false, 0;
    }

    /** The first locked section of `hw_bg_read_begin`. */
    method ClaimSection() returns (claimed: bool)
      modifies this
      ensures (View(), claimed) == Claim(old(View()))
    {
      if running { return false; }
      running := true;
      have := false;
      claimed := true;
    }

    /** Its second one, after a failed spawn. */
    method ReleaseSection()
      modifies this
      ensures View() == Release(old(View()))
    {
      running := false;
    }

    /** The locked section of `hw_bg_read_thread`. */
    method PublishSection()
      modifies this
      ensures View() == Publish(old(View()))
    {
      have := true;
      running := false;
    }

    /** `hw_bg_read_take` */
    method TakeSection() returns (ok: bool, out: Data)
      modifies this
      ensures (View(), ok) == Take(old(View()))
      ensures ok ==> out == old(buf)
    {
      ok, out := !running && have, 0;
      if ok {
        out := buf;
        have := false;
      }
    }
  }
}
