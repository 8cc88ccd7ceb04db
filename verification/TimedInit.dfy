/** A one-time initializer behind a bounded wait, in its two copies: the installer's
    (payload/installer/inst_timed_init.h) and the shared one (payload/include/timed_init.h).
    Every stretch of code that holds the mutex is one step; any number of callers and workers
    interleave between steps. When a wait times out, wakes or fails is up to the run. */
module TimedInit {
  import opened Wrappers

  datatype Phase = Idle | Running | Done

  datatype Copy = Installer | SharedHeader

  const TIMEOUT: int := -0xDEAD

  /** An initializer function, by identity. */
  type Fn = nat

  /** The fields under the mutex. */
  datatype Fields = Fields(phase: Phase, result: int, fn: Option<Fn>)

  const INITIAL: Fields := Fields(Idle, -1, None)

  /** What a timed condition wait came back with. */
  datatype WaitRc = Woken | TimedOut | Failed

  /** Why a call returned. */
  datatype Why = NullArgument | NoClock | Cached | NoThread | DeadlinePassed | WaitError | Published

  datatype Verdict = Wait | Return(code: int, why: Why)

  // ---- The critical sections

  /** From the lock to the first wait, or to the return. `created` is whether a thread could be had,
      should one be wanted. The last component says that a worker was started. */
  function Enter(f: Fields, fn: Fn, created: bool): (Fields, Verdict, bool) {
    if f.phase == Done && f.result == 0 then (f, Return(0, Cached), false)
    else if f.phase != Running then
      if created then (Fields(Running, -1, Some(fn)), Wait, true)
      else (Fields(Done, -1, Some(fn)), Return(-1, NoThread), false)
    else (f, Wait, false)
  }

  /** From the return of one timed wait, mutex held again, to the next wait or the return. */
  function Wake(copy: Copy, f: Fields, rc: WaitRc): Verdict {
    match rc
    case TimedOut =>
      if copy == Installer && f.phase != Running then Return(f.result, Published)
      else Return(TIMEOUT, DeadlinePassed)
    case Failed => Return(-1, WaitError)
    case Woken => if f.phase == Running then Wait else Return(f.result, Published)
  }

  /** The worker's own section, after its function returned `r`. */
  function Publish(f: Fields, r: int): Fields {
    f.(result := r, phase := Done)
  }

  // ---- All threads together

  datatype Caller = Waiting | Returned(verdict: Verdict, phaseThen: Phase)

  /** A live worker: the function its starter passed, and the one it read from the state. */
  datatype Worker = Worker(passed: Fn, loaded: Option<Fn>)

  /** How an attempt ended: its worker published a result, or there was no thread for it. */
  datatype Ended = Gave(result: int) | NotStarted

  datatype State = State(
    fields: Fields,
    workers: map<nat, Worker>,   // created and not yet published
    callers: map<nat, Caller>,   // one id per call
    starts: nat,                 // workers ever created
    succeeded: bool,             // some worker published 0
    ended: seq<Ended>,           // attempts that ended, in order
    seen: map<nat, nat>)         // per call, how many had when it last took or gave back the mutex

  datatype Event =
    | CallWith(t: nat, fn: Fn, created: bool, clock: bool)
    | CallWithNull(t: nat)
    | WaitReturns(t: nat, rc: WaitRc)
    | WorkerLoads(w: nat)
    | WorkerPublishes(w: nat, r: int)

  const START: State := State(INITIAL, map[], map[], 0, false, [], map[])

  /** One step; an event that cannot happen here leaves the state alone. */
  function Step(copy: Copy, s: State, e: Event): State {
    match e
    case CallWith(t, fn, created, clock) =>
      if t in s.callers then s
      else if copy == SharedHeader && !clock then
        s.(callers := s.callers[t := Returned(Return(-1, NoClock), s.fields.phase)])
      else
        var (f, verdict, started) := Enter(s.fields, fn, created);
        var ended := if verdict == Return(-1, NoThread) then s.ended + [NotStarted] else s.ended;
        s.(fields := f,
           ended := ended,
           seen := s.seen[t := |ended|],
           callers := s.callers[t := After(verdict, f.phase)],
           workers := if started then s.workers[s.starts := Worker(fn, None)] else s.workers,
           starts := if started then s.starts + 1 else s.starts)
    case CallWithNull(t) =>
      if t in s.callers then s
      else s.(callers := s.callers[t := Returned(Return(-1, NullArgument), s.fields.phase)])
    case WaitReturns(t, rc) =>
      if t in s.callers && s.callers[t] == Waiting
      then s.(callers := s.callers[t := After(Wake(copy, s.fields, rc), s.fields.phase)],
              seen := s.seen[t := |s.ended|])
      else s
    case WorkerLoads(w) =>
      if w in s.workers && s.workers[w].loaded == None
      then s.(workers := s.workers[w := s.workers[w].(loaded := s.fields.fn)])
      else s
    case WorkerPublishes(w, r) =>
      if w in s.workers && s.workers[w].loaded.Some?
      then s.(fields := Publish(s.fields, r), workers := s.workers - {w}, succeeded := s.succeeded || r == 0,
              ended := s.ended + [Gave(r)])
      else s
  }

  function After(v: Verdict, phase: Phase): Caller {
    if v == Wait then Waiting else Returned(v, phase)
  }

  function Exec(copy: Copy, s: State, events: seq<Event>): State
    decreases |events|
  {
    if events == [] then s
    else Exec(copy, Step(copy, s, events[0]), events[1..])
  }

  // ---- What every step keeps

  ghost predicate Inv(s: State) {
    && (s.fields.phase == Running <==> s.workers.Keys == {s.starts - 1} && s.starts > 0)
    && (s.fields.phase != Running <==> s.workers == map[])
    && (s.fields.phase == Running ==> s.fields.result == -1)
    && (s.succeeded <==> s.fields.phase == Done && s.fields.result == 0)
    && (forall w | w in s.workers :: s.fields.fn == Some(s.workers[w].passed)
                                      && (s.workers[w].loaded.Some? ==> s.workers[w].loaded == s.fields.fn))
  }

  lemma StepKeepsInv(copy: Copy, s: State, e: Event)
    requires Inv(s)
    ensures Inv(Step(copy, s, e))
  {
    var s' := Step(copy, s, e);
    match e
    case CallWith(t, fn, created, clock) =>
      if t !in s.callers && Enter(s.fields, fn, created).2 {
        assert s'.workers.Keys == {s.starts} || s'.workers == s.workers;
      }
    case WorkerPublishes(w, r) =>
      if w in s.workers {
        assert s.workers.Keys == {w};
        assert s'.workers == map[] || s' == s;
      }
    case WorkerLoads(w) =>
      if w in s.workers {
        assert s'.workers.Keys == s.workers.Keys;
      }
    case _ =>
  }

  lemma {:induction false} ExecKeepsInv(copy: Copy, s: State, events: seq<Event>)
    requires Inv(s)
    ensures Inv(Exec(copy, s, events))
    decreases |events|
  {
    if events != [] {
      StepKeepsInv(copy, s, events[0]);
      ExecKeepsInv(copy, Step(copy, s, events[0]), events[1..]);
    }
  }

  /** In every run of either copy: at most one initializer is live, the phase is RUNNING exactly while
      one is, and it runs the function its starter passed, whatever later callers asked for. */
  lemma OneInitializerAtATime(copy: Copy, events: seq<Event>)
    ensures var s := Exec(copy, START, events);
            && |s.workers| <= 1
            && (s.fields.phase == Running <==> |s.workers| == 1)
            && (forall w | w in s.workers && s.workers[w].loaded.Some? ::
                  s.workers[w].loaded.value == s.workers[w].passed)
  {
    ExecKeepsInv(copy, START, events);
    var s := Exec(copy, START, events);
    if s.workers.Keys == {s.starts - 1} {
      assert |s.workers.Keys| == 1;
    }
  }

  /** Calls made from `s` on have returned 0, but for those with a null function and, in the shared copy,
      those whose clock read failed, which it checks before it takes the lock. */
  ghost predicate NewCallsReturnZero(copy: Copy, s: State, s': State) {
    forall t | t in s'.callers && t !in s.callers ::
      && s'.callers[t].Returned? && s'.callers[t].verdict.Return?
      && (s'.callers[t].verdict.code == 0 <==> s'.callers[t].verdict.why !in {NullArgument, NoClock})
      && (copy == Installer ==> s'.callers[t].verdict.why != NoClock)
  }

  /** After a published 0, however the run goes on: no initializer ever starts again, the result stays,
      and every later call returns 0 at once, but for the two kinds above. */
  lemma SuccessIsPermanent(copy: Copy, before: seq<Event>, after: seq<Event>)
    requires Exec(copy, START, before).succeeded
    ensures var s := Exec(copy, START, before);
            var s' := Exec(copy, s, after);
            && s'.fields.phase == Done && s'.fields.result == 0
            && s'.starts == s.starts && s'.workers == map[]
            && NewCallsReturnZero(copy, s, s')
  {
    ExecKeepsInv(copy, START, before);
    SuccessStays(copy, Exec(copy, START, before), after);
  }

  /** Which calls after a success return it. */
  lemma CallAfterSuccessReturnsZeroIff(copy: Copy, s: State, t: nat, fn: Fn, created: bool, clock: bool)
    requires Inv(s) && s.succeeded && t !in s.callers
    ensures var c := Step(copy, s, CallWith(t, fn, created, clock)).callers[t];
            c.Returned? && c.verdict.Return? && (c.verdict.code == 0 <==> copy == Installer || clock)
  {
  }

  lemma {:induction false} SuccessStays(copy: Copy, s: State, events: seq<Event>)
    requires Inv(s) && s.succeeded
    ensures var s' := Exec(copy, s, events);
            && s'.fields == s.fields && s'.starts == s.starts && s'.workers == map[] && s'.succeeded
            && s.callers.Keys <= s'.callers.Keys
            && NewCallsReturnZero(copy, s, s')
    decreases |events|
  {
    if events != [] {
      var m := Step(copy, s, events[0]);
      StepKeepsInv(copy, s, events[0]);
      assert m.fields == s.fields && m.workers == map[] && m.succeeded;
      assert NewCallsReturnZero(copy, s, m);
      SuccessStays(copy, m, events[1..]);
      SettledStay(copy, m, events[1..]);
    }
  }

  /** A call that has returned stays returned with the same verdict. */
  lemma {:induction false} SettledStay(copy: Copy, s: State, events: seq<Event>)
    ensures forall t | t in s.callers && s.callers[t].Returned? ::
              t in Exec(copy, s, events).callers && Exec(copy, s, events).callers[t] == s.callers[t]
    decreases |events|
  {
    if events != [] {
      SettledStay(copy, Step(copy, s, events[0]), events[1..]);
    }
  }

  /** In the installer's copy a wait that ends after the success returns it, late or not, unless the
      wait itself failed. */
  lemma LateWakeStillSucceeds(s: State, t: nat, rc: WaitRc)
    requires Inv(s) && s.succeeded && t in s.callers && s.callers[t] == Waiting && rc != Failed
    ensures Step(Installer, s, WaitReturns(t, rc)).callers[t] == Returned(Return(0, Published), Done)
  {
  }

  // ---- What the codes mean

  function ResultOf(e: Ended): int {
    if e.Gave? then e.result else -1
  }

  /** The stored result is that of the attempt that ended last, and none waits before the first attempt. */
  ghost predicate StoredIsLast(s: State) {
    && (s.fields.phase == Done ==> s.ended != [] && s.fields.result == ResultOf(s.ended[|s.ended| - 1]))
    && (s.fields.phase == Idle ==> forall t | t in s.callers :: s.callers[t].Returned?)
  }

  /** The code of a call that returned, by why it did. */
  ghost predicate CodeIs(code: int, why: Why, ended: seq<Ended>, after: nat) {
    && after <= |ended|
    && match why
       case DeadlinePassed => code == -0xDEAD
       case Cached => code == 0 && after > 0 && ended[after - 1] == Gave(0)
       case Published => after > 0 && code == ResultOf(ended[after - 1])
       case _ => code == -1
  }

  ghost predicate CodesMean(s: State) {
    forall t | t in s.callers && s.callers[t].Returned? ::
      && s.callers[t].verdict.Return?
      && (s.callers[t].verdict.why !in {NullArgument, NoClock} ==>
            t in s.seen && CodeIs(s.callers[t].verdict.code, s.callers[t].verdict.why, s.ended, s.seen[t]))
      && (s.callers[t].verdict.why in {NullArgument, NoClock} ==> s.callers[t].verdict.code == -1)
  }

  ghost predicate MeaningKept(s: State) {
    Inv(s) && StoredIsLast(s) && CodesMean(s)
  }

  lemma CodeStays(code: int, why: Why, ended: seq<Ended>, after: nat, e: Ended)
    requires CodeIs(code, why, ended, after)
    ensures CodeIs(code, why, ended + [e], after)
  {
  }

  lemma StepKeepsMeaning(copy: Copy, s: State, e: Event)
    requires MeaningKept(s)
    ensures MeaningKept(Step(copy, s, e))
  {
    hide CodeIs;
    StepKeepsInv(copy, s, e);
    var s' := Step(copy, s, e);
    StoredKept(copy, s, e);
    forall t | t in s'.callers && s'.callers[t].Returned?
      ensures s'.callers[t].verdict.Return?
      ensures s'.callers[t].verdict.why !in {NullArgument, NoClock} ==>
                t in s'.seen && CodeIs(s'.callers[t].verdict.code, s'.callers[t].verdict.why, s'.ended, s'.seen[t])
      ensures s'.callers[t].verdict.why in {NullArgument, NoClock} ==> s'.callers[t].verdict.code == -1
    {
      if t in s.callers && s.callers[t].Returned? {
        OldCodeKept(copy, s, e, t);
      } else {
        NewCodeMeans(copy, s, e, t);
      }
    }
  }

  lemma StoredKept(copy: Copy, s: State, e: Event)
    requires Inv(s) && StoredIsLast(s)
    ensures StoredIsLast(Step(copy, s, e))
  {
  }

  lemma OldCodeKept(copy: Copy, s: State, e: Event, t: nat)
    requires CodesMean(s) && t in s.callers && s.callers[t].Returned?
    ensures var s' := Step(copy, s, e);
            && t in s'.callers && s'.callers[t] == s.callers[t] && s.callers[t].verdict.Return?
            && (s.callers[t].verdict.why !in {NullArgument, NoClock} ==>
                  t in s'.seen && CodeIs(s.callers[t].verdict.code, s.callers[t].verdict.why, s'.ended, s'.seen[t]))
  {
    hide CodeIs;
    var s' := Step(copy, s, e);
    var v := s.callers[t].verdict;
    if v.why !in {NullArgument, NoClock} && s'.ended != s.ended {
      assert s'.ended == s.ended + [s'.ended[|s.ended|]];
      CodeStays(v.code, v.why, s.ended, s.seen[t], s'.ended[|s.ended|]);
    }
  }

  lemma NewCodeMeans(copy: Copy, s: State, e: Event, t: nat)
    requires Inv(s) && StoredIsLast(s) && !(t in s.callers && s.callers[t].Returned?)
    ensures var s' := Step(copy, s, e);
            t in s'.callers && s'.callers[t].Returned? ==>
              && s'.callers[t].verdict.Return?
              && (s'.callers[t].verdict.why !in {NullArgument, NoClock} ==>
                    t in s'.seen
                    && CodeIs(s'.callers[t].verdict.code, s'.callers[t].verdict.why, s'.ended, s'.seen[t]))
              && (s'.callers[t].verdict.why in {NullArgument, NoClock} ==> s'.callers[t].verdict.code == -1)
  {
  }

  lemma {:induction false} ExecKeepsMeaning(copy: Copy, s: State, events: seq<Event>)
    requires MeaningKept(s)
    ensures MeaningKept(Exec(copy, s, events))
    decreases |events|
  {
    if events != [] {
      StepKeepsMeaning(copy, s, events[0]);
      ExecKeepsMeaning(copy, Step(copy, s, events[0]), events[1..]);
    }
  }

  /** In every run of either copy: a call that returned a result returned that of the attempt that had ended last,
      which is what its worker published, or -1 if there was no thread for it; a cached 0 is a published 0; a
      deadline gives the timeout code, and anything else -1. */
  lemma EveryCodeMeans(copy: Copy, events: seq<Event>)
    ensures CodesMean(Exec(copy, START, events))
  {
    ExecKeepsMeaning(copy, START, events);
  }

  /** So a waiter may be told -1 where its initializer gave -5: between the publishing and its waking another call
      found no thread. */
  lemma WaiterMayMissItsResult(copy: Copy)
    ensures var s := Exec(copy, START, [CallWith(0, 7, true, true), WorkerLoads(0), WorkerPublishes(0, -5),
                                        CallWith(1, 7, false, true), WaitReturns(0, Woken)]);
            s.ended == [Gave(-5), NotStarted] && s.callers[0] == Returned(Return(-1, Published), Done)
  {
    var e0, e1, e2 := CallWith(0, 7, true, true), WorkerLoads(0), WorkerPublishes(0, -5);
    var e3, e4 := CallWith(1, 7, false, true), WaitReturns(0, Woken);
    var s1 := Step(copy, START, e0);
    var s2 := Step(copy, s1, e1);
    var s3 := Step(copy, s2, e2);
    var s4 := Step(copy, s3, e3);
    var s5 := Step(copy, s4, e4);
    assert Exec(copy, s4, [e4]) == Exec(copy, s5, []);
    assert [e3, e4][1..] == [e4];
    assert Exec(copy, s3, [e3, e4]) == s5;
    assert [e2, e3, e4][1..] == [e3, e4];
    assert Exec(copy, s2, [e2, e3, e4]) == s5;
    assert [e1, e2, e3, e4][1..] == [e2, e3, e4];
    assert Exec(copy, s1, [e1, e2, e3, e4]) == s5;
    assert [e0, e1, e2, e3, e4][1..] == [e1, e2, e3, e4];
  }

  /** A waiter whose wait ends goes on waiting if and only if it was woken while an attempt is live. With none live
      and no error, it returns the result, except that the shared copy reports a deadline. */
  lemma WakingMeans(copy: Copy, s: State, t: nat, rc: WaitRc)
    requires Inv(s) && StoredIsLast(s) && t in s.callers && s.callers[t] == Waiting
    ensures var c := Step(copy, s, WaitReturns(t, rc)).callers[t];
            && (c == Waiting <==> rc == Woken && s.workers != map[])
            && (rc == Failed ==> c.verdict == Return(-1, WaitError))
            && (rc == TimedOut && (s.workers != map[] || copy == SharedHeader) ==>
                  c.verdict == Return(-0xDEAD, DeadlinePassed))
            && (s.workers == map[] && (rc == Woken || (rc == TimedOut && copy == Installer)) ==>
                  s.ended != [] && c.verdict == Return(ResultOf(s.ended[|s.ended| - 1]), Published))
  {
  }

  /** What a call that could read its clock does: it returns 0 after a success; otherwise it waits for the attempt
      that is live, or starts one of its own, after any number of failed ones, when a thread can be had; and returns
      -1 when none can. */
  lemma CallMeans(copy: Copy, s: State, t: nat, fn: Fn, created: bool, clock: bool)
    requires Inv(s) && t !in s.callers && (copy == Installer || clock)
    ensures var s' := Step(copy, s, CallWith(t, fn, created, clock));
            && (s.succeeded ==> s'.callers[t].Returned? && s'.callers[t].verdict == Return(0, Cached))
            && (!s.succeeded && s.workers != map[] ==> s'.callers[t] == Waiting)
            && (!s.succeeded && s.workers == map[] && created ==>
                  s'.callers[t] == Waiting && s'.starts == s.starts + 1
                  && s'.workers == map[s.starts := Worker(fn, None)])
            && (!s.succeeded && s.workers == map[] && !created ==>
                  s'.callers[t].Returned? && s'.callers[t].verdict == Return(-1, NoThread))
            && (s.succeeded || s.workers != map[] || !created ==> s'.starts == s.starts && s'.workers == s.workers)
  {
  }

  // ---- The timeout rule

  ghost predicate TimeoutsWhileRunning(s: State) {
    forall t | t in s.callers && s.callers[t].Returned? && s.callers[t].verdict.Return?
               && s.callers[t].verdict.why == DeadlinePassed ::
      s.callers[t].phaseThen == Running && s.callers[t].verdict.code == TIMEOUT
  }

  /** In every run of the installer's copy, a deadline is reported only while the attempt is still
      running; a result that is in always wins. */
  lemma {:induction false} InstallerTimesOutOnlyWhileRunning(s: State, events: seq<Event>)
    requires TimeoutsWhileRunning(s)
    ensures TimeoutsWhileRunning(Exec(Installer, s, events))
    decreases |events|
  {
    if events != [] {
      assert TimeoutsWhileRunning(Step(Installer, s, events[0]));
      InstallerTimesOutOnlyWhileRunning(Step(Installer, s, events[0]), events[1..]);
    }
  }

  /** The two copies take the same step in every state but for two kinds: a wait that reports its deadline
      after the attempt has ended, where the shared copy reports a timeout; and a call that cannot read the
      clock, which the shared copy refuses. */
  lemma CopiesDifferExactly(s: State, e: Event)
    ensures Step(Installer, s, e) != Step(SharedHeader, s, e) <==>
              || (&& e.WaitReturns? && e.rc == TimedOut
                  && e.t in s.callers && s.callers[e.t] == Waiting
                  && s.fields.phase != Running)
              || (e.CallWith? && !e.clock && e.t !in s.callers)
  {
    var a, b := Step(Installer, s, e), Step(SharedHeader, s, e);
    if e.WaitReturns? && e.rc == TimedOut && e.t in s.callers && s.callers[e.t] == Waiting
       && s.fields.phase != Running {
      assert a.callers[e.t].verdict.why == Published && b.callers[e.t].verdict.why == DeadlinePassed;
    }
    if e.CallWith? && !e.clock && e.t !in s.callers {
      assert b.callers[e.t].verdict.why == NoClock;
      assert a.callers[e.t] == Waiting || a.callers[e.t].verdict.why != NoClock;
    }
  }

  /** A run of the shared copy whose only caller is told of a timeout after its initializer had
      published success. */
  lemma SharedCopyTimesOutAfterSuccess()
    ensures var s := Exec(SharedHeader, START, [CallWith(0, 7, true, true), WorkerLoads(0), WorkerPublishes(0, 0),
                                                WaitReturns(0, TimedOut)]);
            s.succeeded && s.callers[0] == Returned(Return(TIMEOUT, DeadlinePassed), Done)
  {
    var e0, e1, e2, e3 := CallWith(0, 7, true, true), WorkerLoads(0), WorkerPublishes(0, 0), WaitReturns(0, TimedOut);
    var s1 := Step(SharedHeader, START, e0);
    var s2 := Step(SharedHeader, s1, e1);
    var s3 := Step(SharedHeader, s2, e2);
    var s4 := Step(SharedHeader, s3, e3);
    assert Exec(SharedHeader, s3, [e3]) == Exec(SharedHeader, s4, []);
    assert [e2, e3][1..] == [e3];
    assert Exec(SharedHeader, s2, [e2, e3]) == s4;
    assert [e1, e2, e3][1..] == [e2, e3];
    assert Exec(SharedHeader, s1, [e1, e2, e3]) == s4;
    assert [e0, e1, e2, e3][1..] == [e1, e2, e3];
  }

  // ---- The state object

  class InitState {
    var phase: Phase
    var result: int
    var fn: Option<Fn>

    ghost function View(): Fields
      reads this
    {
      Fields(phase, result, fn)
    }

    constructor ()
      ensures View() == INITIAL
    {
      phase, result, fn := Idle, -1, None;
    }

    /** The section of `..._timed_init_wait` before its wait loop. */
    method EnterSection(f: Fn, created: bool) returns (verdict: Verdict, started: bool)
      modifies this
      ensures (View(), verdict, started) == Enter(old(View()), f, created)
    {
      if phase == Done && result == 0 {
        return Return(0, Cached), false;
      }
      started := false;
      if phase != Running {
        fn := Some(f);
        result := -1;
        phase := Running;
        if !created {
          phase := Done;
          return Return(-1, NoThread), false;
        }
        started := true;
      }
      verdict := Wait;
    }

    /** One turn of the wait loop, entered with the outcome of the condition wait. */
    method WakeSection(copy: Copy, rc: WaitRc) returns (verdict: Verdict)
      ensures verdict == Wake(copy, View(), rc)
    {
      if rc == TimedOut {
        if copy == Installer && phase != Running {
          return Return(result, Published);
        }
        return Return(TIMEOUT, DeadlinePassed);
      }
      if rc == Failed {
        return Return(-1, WaitError);
      }
      if phase == Running {
        return Wait;
      }
      verdict := Return(result, Published);
    }

    /** `..._timed_init_worker`, after its function returned. */
    method PublishSection(r: int)
      modifies this
      ensures View() == Publish(old(View()), r)
    {
      result := r;
      phase := Done;
    }
  }
}
