/** SIGPIPE blocked in every thread, and one thread's window with the default action
    (payload/include/sigpipe_guard.h), under the signal rules of POSIX.1-2017 System Interfaces, sections
    2.4.1 and 2.4.3. A signal raised by a write is directed at the writing thread. */
module SigpipeGuard {
  import opened Wrappers

  datatype Disposition = Ignore | Default

  /** Where the one window stands, and its thread: between the two calls of the opening, open, or
      between the two calls of the closing. `old` is what the opening replaced. */
  datatype Window =
    | Closed
    | Opening(t: nat, was: Disposition)
    | Open(t: nat, was: Disposition)
    | Closing(t: nat, was: Disposition)

  datatype Process = Process(
    disposition: Disposition,
    blocked: map<nat, bool>,   // the threads, and whether each blocks SIGPIPE
    pending: set<nat>,         // threads with a SIGPIPE waiting
    window: Window,
    killedBy: Option<nat>)     // the thread whose SIGPIPE ended the process

  datatype Event =
    | Spawn(creator: nat, t: nat)
    | WriteToClosedPeer(t: nat, kept: bool)   // `kept`: an ignored, blocked signal may stay pending
    | SetDefault(t: nat)                      // sigpipe_default_open, first call
    | Unblock(t: nat)                         // sigpipe_default_open, second call
    | Block(t: nat)                           // sigpipe_default_close, first call
    | Restore(t: nat)                         // sigpipe_default_close, second call

  /** Only the main thread, with SIGPIPE ignored, after `sigpipe_block_this_thread`. */
  function Start(main: nat): Process {
    BlockThisThread(Process(Ignore, map[main := false], {}, Closed, None), main)
  }

  function BlockThisThread(p: Process, t: nat): Process {
    p.(blocked := p.blocked[t := true])
  }

  /** A SIGPIPE at `t`: discarded, left pending, or the end of the process. */
  function Raise(p: Process, t: nat, kept: bool): Process
    requires t in p.blocked
  {
    if p.disposition == Ignore then
      if p.blocked[t] && kept then p.(pending := p.pending + {t}) else p
    else if p.blocked[t] then p.(pending := p.pending + {t})
    else p.(killedBy := Some(t))
  }

  /** Setting the action; to ignore discards whatever waits, in every thread. */
  function SetAction(p: Process, d: Disposition): Process {
    p.(disposition := d, pending := if d == Ignore then {} else p.pending)
  }

  /** Unblocking delivers a signal that waits. */
  function UnblockThread(p: Process, t: nat): Process {
    if t !in p.pending then p.(blocked := p.blocked[t := false])
    else if p.disposition == Ignore then p.(blocked := p.blocked[t := false], pending := p.pending - {t})
    else p.(blocked := p.blocked[t := false], pending := p.pending - {t}, killedBy := Some(t))
  }

  /** One step of some thread. The window is never nested nor opened by two threads, and its opener
      creates no thread before it has closed; an event outside these terms does not happen. */
  function Step(p: Process, e: Event): Process {
    if p.killedBy.Some? then p
    else match e
      case Spawn(creator, t) =>
        if creator in p.blocked && t !in p.blocked && !(p.window != Closed && p.window.t == creator)
        then p.(blocked := p.blocked[t := p.blocked[creator]]) else p
      case WriteToClosedPeer(t, kept) => if t in p.blocked then Raise(p, t, kept) else p
      case SetDefault(t) =>
        if t in p.blocked && p.window == Closed
        then SetAction(p, Default).(window := Opening(t, p.disposition)) else p
      case Unblock(t) =>
        if p.window.Opening? && p.window.t == t then UnblockThread(p, t).(window := Open(t, p.window.was)) else p
      case Block(t) =>
        if p.window.Open? && p.window.t == t
        then p.(blocked := p.blocked[t := true], window := Closing(t, p.window.was)) else p
      case Restore(t) =>
        if p.window.Closing? && p.window.t == t then SetAction(p, p.window.was).(window := Closed) else p
  }

  function Exec(p: Process, events: seq<Event>): Process
    decreases |events|
  {
    if events == [] then p else Exec(Step(p, events[0]), events[1..])
  }

  // ---- What every step keeps

  ghost predicate Inv(p: Process) {
    // every thread blocks SIGPIPE, but for the opener while its window is open
    && (forall t | t in p.blocked :: p.blocked[t] || (p.window.Open? && p.window.t == t))
    && (p.window == Closed ==> p.disposition == Ignore)
    && (p.window != Closed ==> p.disposition == Default && p.window.was == Ignore && p.window.t in p.blocked)
    && (p.killedBy.Some? ==> p.window.Open? && p.killedBy.value == p.window.t)
  }

  lemma StepKeepsInv(p: Process, e: Event)
    requires Inv(p)
    ensures Inv(Step(p, e))
  {
  }

  lemma {:induction false} ExecKeepsInv(p: Process, events: seq<Event>)
    requires Inv(p)
    ensures Inv(Exec(p, events))
    decreases |events|
  {
    if events != [] {
      StepKeepsInv(p, events[0]);
      ExecKeepsInv(Step(p, events[0]), events[1..]);
    }
  }

  /** In every run, however many threads write to closed peers and whenever: only the opener of an open
      window can die of SIGPIPE, and outside a window SIGPIPE is ignored and blocked everywhere. */
  lemma OnlyTheOpenerCanDie(main: nat, events: seq<Event>)
    ensures var p := Exec(Start(main), events);
            && (p.killedBy.Some? ==> p.window.Open? && p.killedBy.value == p.window.t)
            && (p.window == Closed ==> p.disposition == Ignore && forall t | t in p.blocked :: p.blocked[t])
  {
    ExecKeepsInv(Start(main), events);
  }

  /** The close that ends a window, after any run: SIGPIPE is ignored again, nothing waits for any
      thread, and the opener blocks it as before. */
  lemma CloseLeavesNothingPending(main: nat, events: seq<Event>)
    ensures var p := Exec(Start(main), events);
            p.killedBy.None? && p.window.Closing? ==>
              var q := Step(p, Restore(p.window.t));
              q.window == Closed && q.disposition == Ignore && q.pending == {} && q.blocked == p.blocked
              && p.window.t in q.blocked && q.blocked[p.window.t]
  {
    ExecKeepsInv(Start(main), events);
  }

  /** Opening a window ends the process by itself if and only if a SIGPIPE kept from before waits for the
      opener. */
  lemma OpeningKillsIff(p: Process, t: nat)
    requires Inv(p) && p.window == Closed && t in p.blocked
    ensures Exec(p, [SetDefault(t), Unblock(t)]).killedBy == Some(t) <==> t in p.pending
  {
    var e0, e1 := SetDefault(t), Unblock(t);
    var p1 := Step(p, e0);
    assert [e0, e1][1..] == [e1];
    assert Exec(p1, [e1]) == Exec(Step(p1, e1), []);
  }

  /** Inside the window of `t`, up to its last call, with nothing waiting for `t`. */
  ghost predicate Within(p: Process, t: nat) {
    Inv(p) && p.killedBy.None? && p.window != Closed && p.window.t == t && t !in p.pending
  }

  /** With nothing waiting for the opener when the window begins, a death is the window's own: whatever the other
      threads do, the process lives until the opener itself writes to a closed peer. */
  lemma {:induction false} NoOwnWriteNoDeath(p: Process, t: nat, events: seq<Event>)
    requires Within(p, t)
    requires forall i | 0 <= i < |events| ::
               events[i] != Restore(t) && !(events[i].WriteToClosedPeer? && events[i].t == t)
    ensures Within(Exec(p, events), t)
    decreases |events|
  {
    if events != [] {
      var e := events[0];
      StepKeepsInv(p, e);
      assert Within(Step(p, e), t);
      NoOwnWriteNoDeath(Step(p, e), t, events[1..]);
    }
  }

  lemma WindowBegins(p: Process, t: nat)
    requires Inv(p) && p.killedBy.None? && p.window == Closed && t in p.blocked
    ensures Within(Step(p, SetDefault(t)), t) <==> t !in p.pending
  {
    StepKeepsInv(p, SetDefault(t));
  }

  /** Why main must block it first: with one thread that does not, a write of that thread during another
      thread's window ends the process. */
  lemma UnblockedBystanderDies(opener: nat, other: nat)
    requires opener != other
    ensures var p := Process(Ignore, map[opener := true, other := false], {}, Closed, None);
            Exec(p, [SetDefault(opener), WriteToClosedPeer(other, false)]).killedBy == Some(other)
  {
    var p := Process(Ignore, map[opener := true, other := false], {}, Closed, None);
    var e0, e1 := SetDefault(opener), WriteToClosedPeer(other, false);
    var p1 := Step(p, e0);
    assert [e0, e1][1..] == [e1];
    assert Exec(p1, [e1]) == Exec(Step(p1, e1), []);
  }

  /** Why the opener must not create a thread inside its window: the new thread inherits its open mask. */
  lemma ThreadBornInWindowDies(opener: nat, born: nat)
    requires opener != born
    ensures var p := Process(Default, map[opener := false], {}, Open(opener, Ignore), None);
            var q := p.(blocked := p.blocked[born := p.blocked[opener]]);
            Inv(p) && Step(q, WriteToClosedPeer(born, false)).killedBy == Some(born)
  {
  }

  /** What opening leaves: the default action, the opener unblocked, every other mask as it was, and nothing
      taken from another thread. */
  lemma OpeningMeans(p: Process, t: nat)
    requires Inv(p) && p.killedBy.None? && p.window == Closed && t in p.blocked
    ensures Exec(p, [SetDefault(t), Unblock(t)]) ==
              Process(Default, p.blocked[t := false], p.pending - {t}, Open(t, Ignore),
                      if t in p.pending then Some(t) else None)
  {
    var e0, e1 := SetDefault(t), Unblock(t);
    var p1 := Step(p, e0);
    assert [e0, e1][1..] == [e1];
    assert Exec(p1, [e1]) == Exec(Step(p1, e1), []);
    if t !in p.pending {
      assert p.pending - {t} == p.pending;
    }
  }

  ghost predicate Exposed(p: Process, t: nat) {
    Within(p, t) && p.window.Open? && !p.blocked[t]
  }

  lemma {:induction false} StaysExposed(p: Process, t: nat, events: seq<Event>)
    requires Exposed(p, t)
    requires forall i | 0 <= i < |events| ::
               events[i] != Block(t) && !(events[i].WriteToClosedPeer? && events[i].t == t)
    ensures Exposed(Exec(p, events), t)
    decreases |events|
  {
    if events != [] {
      StepKeepsInv(p, events[0]);
      assert Exposed(Step(p, events[0]), t);
      StaysExposed(Step(p, events[0]), t, events[1..]);
    }
  }

  /** A SIGPIPE the guarded call itself raises still ends the process: whatever the others have done since the
      opening, the opener's first write to a closed peer before its closing kills, and kills it. */
  lemma OwnWriteKills(p: Process, t: nat, events: seq<Event>, kept: bool)
    requires Inv(p) && p.killedBy.None? && p.window == Closed && t in p.blocked && t !in p.pending
    requires forall i | 0 <= i < |events| ::
               events[i] != Block(t) && !(events[i].WriteToClosedPeer? && events[i].t == t)
    ensures var q := Exec(Exec(p, [SetDefault(t), Unblock(t)]), events);
            q.killedBy.None? && Step(q, WriteToClosedPeer(t, kept)) == q.(killedBy := Some(t))
  {
    OpeningMeans(p, t);
    var exposed := Exec(p, [SetDefault(t), Unblock(t)]);
    assert Inv(exposed);
    StaysExposed(exposed, t, events);
  }

  /** A write of any other thread during the window only leaves a signal waiting for that thread. */
  lemma BystanderWaits(p: Process, t: nat, u: nat, kept: bool)
    requires Within(p, t) && u in p.blocked && u != t
    ensures Step(p, WriteToClosedPeer(u, kept)) == p.(pending := p.pending + {u})
  {
  }

  /** Outside a window a write never ends the process; all it can leave is a signal waiting for its own thread. */
  lemma WriteOutsideWaits(p: Process, t: nat, kept: bool)
    requires Inv(p) && p.killedBy.None? && p.window == Closed && t in p.blocked
    ensures Step(p, WriteToClosedPeer(t, kept)) == p.(pending := if kept then p.pending + {t} else p.pending)
  {
  }

  /** A new thread blocks SIGPIPE from its first step. */
  lemma BornBlocked(p: Process, creator: nat, t: nat)
    requires Inv(p) && p.killedBy.None? && creator in p.blocked && t !in p.blocked
    requires p.window != Closed ==> p.window.t != creator
    ensures Step(p, Spawn(creator, t)) == p.(blocked := p.blocked[t := true])
  {
  }

  /** Opening and closing with nobody writing gives back the process as it was, and drops what waited. */
  lemma WindowIsUndone(p: Process, t: nat)
    requires Inv(p) && p.killedBy.None? && p.window == Closed && t in p.blocked && t !in p.pending
    ensures Exec(Exec(p, [SetDefault(t), Unblock(t)]), [Block(t), Restore(t)]) == p.(pending := {})
  {
    OpeningMeans(p, t);
    var q := Exec(p, [SetDefault(t), Unblock(t)]);
    var e0, e1 := Block(t), Restore(t);
    var q1 := Step(q, e0);
    assert [e0, e1][1..] == [e1];
    assert Exec(q1, [e1]) == Exec(Step(q1, e1), []);
    assert p.blocked[t := false][t := true] == p.blocked;
  }

  // ---- The calls

  class Signals {
    var disposition: Disposition
    var blocked: map<nat, bool>
    var pending: set<nat>
    var killedBy: Option<nat>

    ghost function View(window: Window): Process
      reads this
    {
      Process(disposition, blocked, pending, window, killedBy)
    }

    constructor (main: nat)
      ensures View(Closed) == Process(Ignore, map[main := false], {}, Closed, None)
    {
      disposition, blocked, pending, killedBy := Ignore, map[main := false], {}, None;
    }

    /** `pthread_sigmask(SIG_BLOCK)` for SIGPIPE in thread `t`. */
    method BlockIn(t: nat)
      modifies this
      ensures forall w :: View(w) == BlockThisThread(old(View(w)), t)
    {
      blocked := blocked[t := true];
    }

    /** `pthread_sigmask(SIG_UNBLOCK)` for SIGPIPE in thread `t`. */
    method UnblockIn(t: nat)
      modifies this
      ensures forall w :: View(w) == UnblockThread(old(View(w)), t)
    {
      blocked := blocked[t := false];
      if t in pending {
        pending := pending - {t};
        if disposition == Default {
          killedBy := Some(t);
        }
      }
    }

    /** `signal(SIGPIPE, d)`, returning the action it replaces. */
    method Signal(d: Disposition) returns (was: Disposition)
      modifies this
      ensures was == old(disposition) && forall w :: View(w) == SetAction(old(View(w)), d)
    {
      was := disposition;
      disposition := d;
      if d == Ignore {
        pending := {};
      }
    }

    /** `sigpipe_default_open`, when no other thread runs between its two calls. */
    method DefaultOpen(t: nat) returns (was: Disposition)
      requires t in blocked && killedBy.None?
      modifies this
      ensures was == old(disposition)
      ensures View(Open(t, was)) == Step(Step(old(View(Closed)), SetDefault(t)), Unblock(t))
    {
      was := Signal(Default);
      UnblockIn(t);
    }

    /** `sigpipe_default_close`, likewise. */
    method DefaultClose(t: nat, was: Disposition)
      requires t in blocked && killedBy.None?
      modifies this
      ensures View(Closed) == Step(Step(old(View(Open(t, was))), Block(t)), Restore(t))
    {
      BlockIn(t);
      var _ := Signal(was);
    }
  }
}
