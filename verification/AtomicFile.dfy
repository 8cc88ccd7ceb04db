/** Replacing a file through a sibling temp (payload/include/atomic_file.h), over a disk whose
    un-synced data and directory entries may reach storage at any time, in any order and in part. */
module AtomicFile {
  import opened Bytes
  import opened Wrappers

  type Ino = nat

  /** What the two names refer to. */
  datatype Dir = Dir(target: Option<Ino>, tmp: Option<Ino>)

  datatype Disk = Disk(
    live: Dir,                    // as running programs see it
    durable: Dir,                 // as a crash would leave it
    data: map<Ino, seq<byte>>,    // file contents, live
    stored: map<Ino, seq<byte>>,  // file contents a crash would leave
    synced: set<Ino>,             // files with nothing waiting to be written
    next: Ino)                    // a free inode

  // ---- System calls that succeeded

  /** `open(tmp, O_WRONLY | O_CREAT | O_TRUNC | O_NOFOLLOW)` */
  function Open(d: Disk): (Disk, Ino) {
    match d.live.tmp
    case Some(i) => (d.(data := d.data[i := []], synced := d.synced - {i}), i)
    case None =>
      (d.(live := d.live.(tmp := Some(d.next)), data := d.data[d.next := []], stored := d.stored[d.next := []],
          synced := d.synced - {d.next}, next := d.next + 1), d.next)
  }

  function Write(d: Disk, fd: Ino, bytes: seq<byte>): Disk {
    d.(data := d.data[fd := (if fd in d.data then d.data[fd] else []) + bytes], synced := d.synced - {fd})
  }

  function Fsync(d: Disk, fd: Ino): Disk {
    if fd in d.data then d.(stored := d.stored[fd := d.data[fd]], synced := d.synced + {fd}) else d
  }

  function Rename(d: Disk): Disk {
    d.(live := Dir(d.live.tmp, None))
  }

  function Unlink(d: Disk): Disk {
    d.(live := d.live.(tmp := None))
  }

  // ---- What storage may do on its own at any moment

  datatype Background = TargetEntryReaches | TmpEntryReaches | DataReaches(ino: Ino, bytes: seq<byte>)

  /** A directory entry reaches storage as it is now; a file with un-synced writes may hold any bytes
      there. */
  function Settle(d: Disk, b: Background): Disk {
    match b
    case TargetEntryReaches => d.(durable := d.durable.(target := d.live.target))
    case TmpEntryReaches => d.(durable := d.durable.(tmp := d.live.tmp))
    case DataReaches(ino, bytes) => if ino in d.synced then d else d.(stored := d.stored[ino := bytes])
  }

  // ---- The program, one system call at a time

  /** A system call's result: failed, interrupted by a signal, or done (`count` bytes, for a write). */
  datatype Outcome = Fails | Interrupted | Succeeds(count: nat)

  datatype Pc = AtOpen | AtWrite | AtFsync | AtClose | AtRename | AtUnlink | Finished

  /** `hasFd` and `unlinked` record which of those two calls has worked so far. */
  datatype Run = Run(disk: Disk, pc: Pc, fd: Ino, off: nat, rc: int, hasFd: bool, unlinked: bool)

  /** `syncs` is true in the source; with false the same program without its fsync. */
  datatype Job = Job(bytes: seq<byte>, syncs: bool)

  function Start(d: Disk): Run {
    Run(d, AtOpen, 0, 0, 0, false, false)
  }

  function LoopHead(job: Job, r: Run): Run {
    r.(pc := if r.off < |job.bytes| then AtWrite else AtFsync)
  }

  function Call(job: Job, r: Run, o: Outcome): Run {
    match r.pc
    case AtOpen =>
      if !o.Succeeds? then r.(pc := Finished, rc := -1)
      else
        var (d, fd) := Open(r.disk);
        LoopHead(job, r.(disk := d, fd := fd, hasFd := true))
    case AtWrite =>
      if r.off >= |job.bytes| || o.Interrupted? then r
      else if o.Fails? || o.count == 0 then r.(rc := -1, pc := AtClose)
      else
        var n := if o.count > |job.bytes| - r.off then |job.bytes| - r.off else o.count;
        LoopHead(job, r.(disk := Write(r.disk, r.fd, job.bytes[r.off..r.off + n]), off := r.off + n))
    case AtFsync =>
      if !job.syncs then r.(pc := AtClose)
      else if o.Succeeds? then r.(disk := Fsync(r.disk, r.fd), pc := AtClose)
      else r.(rc := -1, pc := AtClose)
    case AtClose =>
      var rc := if o.Succeeds? then r.rc else -1;
      r.(rc := rc, pc := if rc == 0 then AtRename else AtUnlink)
    case AtRename =>
      if o.Succeeds? then r.(disk := Rename(r.disk), pc := Finished)
      else r.(rc := -1, pc := AtUnlink)
    case AtUnlink =>
      r.(disk := if o.Succeeds? then Unlink(r.disk) else r.disk, unlinked := o.Succeeds?, pc := Finished)
    case Finished => r
  }

  datatype Event = Kernel(o: Outcome) | Storage(b: Background)

  function Step(job: Job, r: Run, e: Event): Run {
    match e
    case Kernel(o) => Call(job, r, o)
    case Storage(b) => r.(disk := Settle(r.disk, b))
  }

  function Exec(job: Job, r: Run, events: seq<Event>): Run
    decreases |events|
  {
    if events == [] then r else Exec(job, Step(job, r, events[0]), events[1..])
  }

  // ---- Crash safety

  /** What a name's file holds, live; None when there is none. */
  function LiveFile(d: Disk, name: Option<Ino>): Option<seq<byte>> {
    if name.Some? && name.value in d.data then Some(d.data[name.value]) else None
  }

  /** What the target holds after a crash now. */
  function TargetAfterCrash(d: Disk): Option<seq<byte>> {
    if d.durable.target.Some? && d.durable.target.value in d.stored
    then Some(d.stored[d.durable.target.value]) else None
  }

  /** The file a name refers to, if any, is wholly on storage. */
  ghost predicate Whole(d: Disk, name: Option<Ino>) {
    name.Some? ==>
      var t := name.value;
      t < d.next && t in d.synced && t in d.data && t in d.stored && d.stored[t] == d.data[t]
  }

  /** Where the program may start: the target as it is, and the one a crash would leave, are each wholly on
      storage, and the temp's name is not another name of either. They may differ, the last rename not having
      reached storage; and a temp left by an earlier run may be there. */
  ghost predicate Ready(d: Disk) {
    && Whole(d, d.live.target) && Whole(d, d.durable.target)
    && (d.live.tmp.Some? ==>
          d.live.tmp != d.live.target && d.live.tmp != d.durable.target && d.live.tmp.value < d.next)
  }

  /** A file of before the call is as it was, wholly on storage, and not the one being written. */
  ghost predicate Kept(d0: Disk, r: Run, name: Option<Ino>) {
    name.Some? ==>
      var t := name.value;
      && t in d0.data && t in d0.stored && d0.stored[t] == d0.data[t] && Whole(r.disk, name)
      && r.disk.data[t] == d0.data[t] && r.disk.live.tmp != name && (r.hasFd ==> r.fd != t)
  }

  /** The temp holds the bytes written so far and is still named. */
  ghost predicate TempHolds(job: Job, r: Run) {
    && r.fd in r.disk.data && r.off <= |job.bytes|
    && r.disk.data[r.fd] == job.bytes[..r.off]
    && r.disk.live.tmp == Some(r.fd)
  }

  ghost predicate Durable(job: Job, r: Run) {
    && r.fd in r.disk.data && r.fd in r.disk.stored && r.fd in r.disk.synced
    && r.disk.data[r.fd] == job.bytes && r.disk.stored[r.fd] == job.bytes
  }

  ghost predicate Inv(job: Job, d0: Disk, r: Run) {
    && Kept(d0, r, d0.live.target) && Kept(d0, r, d0.durable.target)
    && (r.rc == 0 || r.rc == -1)
    && (r.hasFd ==> r.fd < r.disk.next)
    && (r.pc == Finished && r.rc == 0 ==>
          && Durable(job, r) && r.disk.live == Dir(Some(r.fd), None)
          && r.disk.durable.target in {d0.durable.target, d0.live.target, Some(r.fd)})
    && (!(r.pc == Finished && r.rc == 0) ==>
          r.disk.live.target == d0.live.target && r.disk.durable.target in {d0.durable.target, d0.live.target})
    && (!r.hasFd ==> r.pc in {AtOpen, Finished} && r.disk.live == d0.live && r.disk.data == d0.data
                      && (r.pc == Finished ==> r.rc == -1))
    && match r.pc
       case AtOpen =>
         !r.hasFd && r.rc == 0 && r.off == 0 && (r.disk.live.tmp.Some? ==> r.disk.live.tmp.value < r.disk.next)
       case AtWrite => r.rc == 0 && TempHolds(job, r) && r.off < |job.bytes|
       case AtFsync => r.rc == 0 && TempHolds(job, r) && r.off == |job.bytes|
       case AtClose => TempHolds(job, r) && (r.rc == 0 ==> Durable(job, r))
       case AtRename => r.rc == 0 && TempHolds(job, r) && Durable(job, r)
       case AtUnlink => r.rc == -1 && r.disk.live.tmp == Some(r.fd)
       case Finished =>
         && (r.rc == -1 && r.hasFd ==> r.disk.live.tmp == if r.unlinked then None else Some(r.fd))
         && (!r.hasFd && r.disk.live.tmp.Some? ==> r.disk.live.tmp.value < r.disk.next)
  }

  lemma StepKeepsInv(job: Job, d0: Disk, r: Run, e: Event)
    requires job.syncs && Inv(job, d0, r)
    ensures Inv(job, d0, Step(job, r, e))
  {
    match e
    case Storage(b) => SettleKeepsInv(job, d0, r, b);
    case Kernel(o) =>
      if r.pc == AtWrite {
        WriteKeepsInv(job, d0, r, o);
      } else if r.pc == AtOpen {
        OpenKeepsInv(job, d0, r, o);
      } else {
        CallKeepsInv(job, d0, r, o);
      }
  }

  lemma SettleKeepsInv(job: Job, d0: Disk, r: Run, b: Background)
    requires Inv(job, d0, r)
    ensures Inv(job, d0, Step(job, r, Storage(b)))
  {
  }

  lemma WriteKeepsInv(job: Job, d0: Disk, r: Run, o: Outcome)
    requires Inv(job, d0, r) && r.pc == AtWrite
    ensures Inv(job, d0, Call(job, r, o))
  {
    if o.Succeeds? {
      var n := if o.count > |job.bytes| - r.off then |job.bytes| - r.off else o.count;
      assert job.bytes[..r.off] + job.bytes[r.off..r.off + n] == job.bytes[..r.off + n];
    }
  }

  lemma OpenKeepsInv(job: Job, d0: Disk, r: Run, o: Outcome)
    requires Inv(job, d0, r) && r.pc == AtOpen
    ensures Inv(job, d0, Call(job, r, o))
  {
    if o.Succeeds? {
      var (d, fd) := Open(r.disk);
      assert fd in d.data && d.data[fd] == [] && d.live.tmp == Some(fd) && fd < d.next;
      assert job.bytes[..0] == [];
    }
  }

  lemma CallKeepsInv(job: Job, d0: Disk, r: Run, o: Outcome)
    requires job.syncs && Inv(job, d0, r) && r.pc !in {AtOpen, AtWrite}
    ensures Inv(job, d0, Call(job, r, o))
  {
    if r.off == |job.bytes| {
      assert job.bytes[..r.off] == job.bytes;
    }
  }

  lemma {:induction false} ExecKeepsInv(job: Job, d0: Disk, r: Run, events: seq<Event>)
    requires job.syncs && Inv(job, d0, r)
    ensures Inv(job, d0, Exec(job, r, events))
    decreases |events|
  {
    if events != [] {
      StepKeepsInv(job, d0, r, events[0]);
      ExecKeepsInv(job, d0, Step(job, r, events[0]), events[1..]);
    }
  }

  /** A crash at any point of any run, however short the writes and whatever reached storage when, leaves
      what it would have left before the call, or the whole old file, or the whole new one. */
  lemma CrashLeavesOldOrNew(bytes: seq<byte>, d0: Disk, events: seq<Event>)
    requires Ready(d0)
    ensures var r := Exec(Job(bytes, true), Start(d0), events);
            TargetAfterCrash(r.disk) in {TargetAfterCrash(d0), LiveFile(d0, d0.live.target), Some(bytes)}
  {
    ExecKeepsInv(Job(bytes, true), d0, Start(d0), events);
  }

  // ---- One call after another

  /** A call, and how its run goes until the next one. */
  datatype Save = Save(bytes: seq<byte>, events: seq<Event>)

  function RunOf(d: Disk, save: Save): Run {
    Exec(Job(save.bytes, true), Start(d), save.events)
  }

  /** The disk after the calls in turn. */
  function AfterAll(d: Disk, saves: seq<Save>): Disk {
    if saves == [] then d else RunOf(AfterAll(d, saves[..|saves| - 1]), saves[|saves| - 1]).disk
  }

  /** Each of the calls returned before the next began. */
  ghost predicate AllReturned(d: Disk, saves: seq<Save>) {
    saves != [] ==>
      && AllReturned(d, saves[..|saves| - 1])
      && RunOf(AfterAll(d, saves[..|saves| - 1]), saves[|saves| - 1]).pc == Finished
  }

  /** A call that returned, with whatever result, leaves the disk ready for the next, though nothing it did to
      the directory need have reached storage. */
  lemma ReturnedIsReady(d: Disk, save: Save)
    requires Ready(d) && RunOf(d, save).pc == Finished
    ensures Ready(RunOf(d, save).disk)
  {
    ExecKeepsInv(Job(save.bytes, true), d, Start(d), save.events);
  }

  /** One of the versions: what a crash would have left at first, the file as it was at first, or the whole bytes
      of one of the calls. */
  ghost predicate IsVersion(f: Option<seq<byte>>, d: Disk, saves: seq<Save>) {
    || f == TargetAfterCrash(d) || f == LiveFile(d, d.live.target)
    || exists i | 0 <= i < |saves| :: f == Some(saves[i].bytes)
  }

  lemma MoreVersions(f: Option<seq<byte>>, d: Disk, saves: seq<Save>, save: Save)
    requires IsVersion(f, d, saves) || f == Some(save.bytes)
    ensures IsVersion(f, d, saves + [save])
  {
    var all := saves + [save];
    assert all[|saves|] == save;
    if i :| 0 <= i < |saves| && f == Some(saves[i].bytes) {
      assert all[i] == saves[i];
    }
  }

  /** However many calls returned, with whatever results: the disk is ready, and the file as programs see it
      and as a crash would leave it are each one whole version. */
  lemma {:induction false} EveryCallLeavesAVersion(d: Disk, saves: seq<Save>)
    requires Ready(d) && AllReturned(d, saves)
    ensures var d' := AfterAll(d, saves);
            && Ready(d')
            && IsVersion(TargetAfterCrash(d'), d, saves)
            && IsVersion(LiveFile(d', d'.live.target), d, saves)
    decreases |saves|
  {
    if saves != [] {
      var front, last := saves[..|saves| - 1], saves[|saves| - 1];
      var d1 := AfterAll(d, front);
      EveryCallLeavesAVersion(d, front);
      ReturnedIsReady(d1, last);
      CrashLeavesOldOrNew(last.bytes, d1, last.events);
      ReturnedOutcome(last.bytes, d1, last.events);
      assert front + [last] == saves;
      MoreVersions(TargetAfterCrash(AfterAll(d, saves)), d, front, last);
      MoreVersions(LiveFile(AfterAll(d, saves), AfterAll(d, saves).live.target), d, front, last);
    }
  }

  /** A crash in the middle of any call after any number of calls leaves the whole bytes of some version. */
  lemma CrashLeavesAVersion(d: Disk, saves: seq<Save>, now: Save)
    requires Ready(d) && AllReturned(d, saves)
    ensures IsVersion(TargetAfterCrash(RunOf(AfterAll(d, saves), now).disk), d, saves + [now])
  {
    var d1 := AfterAll(d, saves);
    EveryCallLeavesAVersion(d, saves);
    CrashLeavesOldOrNew(now.bytes, d1, now.events);
    MoreVersions(TargetAfterCrash(RunOf(d1, now).disk), d, saves, now);
  }

  /** A run that returned: success means the target holds the new bytes; failure means the target is
      the old file, untouched, and the temp is gone exactly if the closing unlink worked, unless the
      open itself failed, which changes nothing. */
  lemma ReturnedOutcome(bytes: seq<byte>, d0: Disk, events: seq<Event>)
    requires Ready(d0)
    ensures var r := Exec(Job(bytes, true), Start(d0), events);
            r.pc == Finished ==>
              && (r.rc == 0 || r.rc == -1)
              && (r.rc == 0 ==> LiveFile(r.disk, r.disk.live.target) == Some(bytes) && r.disk.live.tmp == None)
              && (r.rc == -1 ==> r.disk.live.target == d0.live.target
                                  && LiveFile(r.disk, r.disk.live.target) == LiveFile(d0, d0.live.target))
              && (r.rc == -1 && r.hasFd ==> (r.disk.live.tmp == None <==> r.unlinked))
              && (r.rc == -1 && !r.hasFd ==> r.disk.live == d0.live && r.disk.data == d0.data)
              && (r.rc == -1 ==> (r.disk.live.tmp == None <==> if r.hasFd then r.unlinked else d0.live.tmp == None))
  {
    ExecKeepsInv(Job(bytes, true), d0, Start(d0), events);
  }

  // ---- When the call succeeds

  /** A system call the program made, and its outcome. */
  datatype Made = Made(call: Pc, outcome: Outcome)

  /** The calls made in a run, in order. */
  function Trace(job: Job, r: Run, events: seq<Event>): seq<Made>
    decreases |events|
  {
    if events == [] then []
    else
      (if events[0].Kernel? && r.pc != Finished then [Made(r.pc, events[0].o)] else [])
      + Trace(job, Step(job, r, events[0]), events[1..])
  }

  /** A write may be cut short or interrupted by a signal, not fail or write nothing; any other call must work. */
  predicate Worked(m: Made) {
    if m.call == AtWrite then m.outcome.Interrupted? || (m.outcome.Succeeds? && m.outcome.count > 0)
    else m.outcome.Succeeds?
  }

  /** Every call up to the rename worked. Unlinking is what the program does when one did not. */
  ghost predicate AllWorked(trace: seq<Made>) {
    forall i | 0 <= i < |trace| :: Worked(trace[i]) && trace[i].call != AtUnlink
  }

  /** A run that is on its way, nothing having failed yet. */
  predicate GoingWell(job: Job, r: Run) {
    r.rc == 0 && r.pc in {AtOpen, AtWrite, AtFsync, AtClose, AtRename} && (r.pc == AtWrite ==> r.off < |job.bytes|)
  }

  lemma {:induction false} FailureStays(job: Job, r: Run, events: seq<Event>)
    requires r.rc == -1 && r.pc in {AtClose, AtUnlink, Finished}
    ensures Exec(job, r, events).rc == -1
    decreases |events|
  {
    if events != [] {
      FailureStays(job, Step(job, r, events[0]), events[1..]);
    }
  }

  lemma {:induction false} FinishedRunStays(job: Job, r: Run, events: seq<Event>)
    requires r.pc == Finished
    ensures Exec(job, r, events).rc == r.rc && Exec(job, r, events).pc == Finished && Trace(job, r, events) == []
    decreases |events|
  {
    if events != [] {
      FinishedRunStays(job, Step(job, r, events[0]), events[1..]);
    }
  }

  lemma {:induction false} WorkedIffZero(job: Job, r: Run, events: seq<Event>)
    requires job.syncs && GoingWell(job, r)
    ensures Exec(job, r, events).pc == Finished ==>
              (Exec(job, r, events).rc == 0 <==> AllWorked(Trace(job, r, events)))
    decreases |events|
  {
    if events != [] {
      var e, rest := events[0], events[1..];
      var r' := Step(job, r, e);
      var later := Trace(job, r', rest);
      if e.Storage? {
        assert [] + later == later;
        WorkedIffZero(job, r', rest);
      } else {
        var m := Made(r.pc, e.o);
        TraceCons(m, later);
        if !Worked(m) {
          if r.pc == AtOpen { FinishedRunStays(job, r', rest); } else { FailureStays(job, r', rest); }
        } else if r.pc == AtRename {
          FinishedRunStays(job, r', rest);
        } else {
          WorkedIffZero(job, r', rest);
        }
      }
    }
  }

  lemma TraceCons(m: Made, later: seq<Made>)
    ensures AllWorked([m] + later) <==> Worked(m) && m.call != AtUnlink && AllWorked(later)
  {
    var all := [m] + later;
    assert all[0] == m && forall i | 0 <= i < |later| :: all[i + 1] == later[i];
    if AllWorked(all) {
      forall i | 0 <= i < |later| ensures Worked(later[i]) && later[i].call != AtUnlink {
        assert all[i + 1] == later[i];
      }
    }
  }

  /** A run that returned gave 0 if and only if the open, the fsync, the close and the rename all worked, and no
      write failed or wrote nothing. */
  lemma ZeroIffAllWorked(bytes: seq<byte>, d0: Disk, events: seq<Event>)
    ensures var job := Job(bytes, true);
            var r := Exec(job, Start(d0), events);
            r.pc == Finished ==> (r.rc == 0 <==> AllWorked(Trace(job, Start(d0), events)))
  {
    WorkedIffZero(Job(bytes, true), Start(d0), events);
  }

  /** How many calls are left at most, when every write takes one byte. */
  function CallsLeft(job: Job, r: Run): nat {
    var bytes := if r.off < |job.bytes| then |job.bytes| - r.off else 0;
    match r.pc
    case AtOpen => bytes + 4
    case AtWrite => bytes + 3
    case AtFsync => 3
    case AtClose => 2
    case AtRename => 1
    case AtUnlink => 1
    case Finished => 0
  }

  lemma {:induction false} GoodCallsGetThere(job: Job, r: Run, counts: seq<nat>)
    requires job.syncs && GoingWell(job, r) && (r.pc == AtOpen ==> r.off == 0)
    requires (forall i | 0 <= i < |counts| :: counts[i] > 0) && |counts| >= CallsLeft(job, r)
    ensures Calls(job, r, seq(|counts|, i requires 0 <= i < |counts| => Succeeds(counts[i]))).pc == Finished
    ensures Calls(job, r, seq(|counts|, i requires 0 <= i < |counts| => Succeeds(counts[i]))).rc == 0
    decreases |counts|
  {
    var kernel := seq(|counts|, i requires 0 <= i < |counts| => Succeeds(counts[i]));
    var r' := Call(job, r, kernel[0]);
    assert kernel[1..] == seq(|counts| - 1, i requires 0 <= i < |counts| - 1 => Succeeds(counts[1..][i]));
    if r.pc == AtRename {
      FinishedStays(job, r', kernel[1..]);
    } else {
      GoodCallsGetThere(job, r', counts[1..]);
    }
  }

  /** When every call succeeds and every write writes something, however little, the call returns 0 with the target
      holding the bytes. */
  lemma GoodCallsSave(bytes: seq<byte>, d0: Disk, counts: seq<nat>)
    requires Ready(d0) && (forall i | 0 <= i < |counts| :: counts[i] > 0) && |counts| >= |bytes| + 4
    ensures var kernel := seq(|counts|, i requires 0 <= i < |counts| => Succeeds(counts[i]));
            var r := Calls(Job(bytes, true), Start(d0), kernel);
            r.pc == Finished && r.rc == 0 && LiveFile(r.disk, r.disk.live.target) == Some(bytes)
  {
    var job := Job(bytes, true);
    var kernel := seq(|counts|, i requires 0 <= i < |counts| => Succeeds(counts[i]));
    GoodCallsGetThere(job, Start(d0), counts);
    CallsAreARun(job, Start(d0), kernel);
    ReturnedOutcome(bytes, d0, seq(|kernel|, i requires 0 <= i < |kernel| => Kernel(kernel[i])));
  }

  /** An interrupted write is made again, as if it had not been. */
  lemma InterruptedIsRetried(job: Job, r: Run)
    requires r.pc == AtWrite
    ensures Call(job, r, Interrupted) == r
  {
  }

  /** The same program without its fsync: a run, and a crash after it returned success, that leaves
      an empty file where a whole old one was. */
  lemma WithoutFsyncAShortFile(before: seq<byte>, bytes: seq<byte>)
    requires |before| > 0 && |bytes| > 0
    ensures var d0 := Disk(Dir(Some(0), None), Dir(Some(0), None), map[0 := before], map[0 := before], {0}, 1);
            var ok := Kernel(Succeeds(|bytes|));
            var r := Exec(Job(bytes, false), Start(d0), [ok, ok, ok, ok, ok, Storage(TargetEntryReaches)]);
            && Ready(d0) && r.pc == Finished && r.rc == 0
            && TargetAfterCrash(r.disk) == Some([])
  {
    var job := Job(bytes, false);
    var ok := Kernel(Succeeds(|bytes|));
    var last := Storage(TargetEntryReaches);
    var d0 := Disk(Dir(Some(0), None), Dir(Some(0), None), map[0 := before], map[0 := before], {0}, 1);
    var r1 := Step(job, Start(d0), ok);
    var r2 := Step(job, r1, ok);
    var r3 := Step(job, r2, ok);
    var r4 := Step(job, r3, ok);
    var r5 := Step(job, r4, ok);
    var r6 := Step(job, r5, last);
    assert r1.pc == AtWrite && r2.pc == AtFsync && r3.pc == AtClose && r4.pc == AtRename && r5.pc == Finished;
    assert Exec(job, r5, [last]) == Exec(job, r6, []);
    assert [ok, last][1..] == [last];
    assert Exec(job, r4, [ok, last]) == r6;
    assert [ok, ok, last][1..] == [ok, last];
    assert Exec(job, r3, [ok, ok, last]) == r6;
    assert [ok, ok, ok, last][1..] == [ok, ok, last];
    assert Exec(job, r2, [ok, ok, ok, last]) == r6;
    assert [ok, ok, ok, ok, last][1..] == [ok, ok, ok, last];
    assert Exec(job, r1, [ok, ok, ok, ok, last]) == r6;
    assert [ok, ok, ok, ok, ok, last][1..] == [ok, ok, ok, ok, last];
  }

  /** A failed open leaves a temp of an earlier run where it is. */
  lemma FailedOpenLeavesAStaleTemp(bytes: seq<byte>, stale: seq<byte>)
    ensures var d0 := Disk(Dir(None, Some(0)), Dir(None, Some(0)), map[0 := stale], map[0 := stale], {0}, 1);
            var r := Exec(Job(bytes, true), Start(d0), [Kernel(Fails)]);
            Ready(d0) && r.pc == Finished && r.rc == -1 && LiveFile(r.disk, r.disk.live.tmp) == Some(stale)
  {
    var d0 := Disk(Dir(None, Some(0)), Dir(None, Some(0)), map[0 := stale], map[0 := stale], {0}, 1);
    var r1 := Step(Job(bytes, true), Start(d0), Kernel(Fails));
    assert [Kernel(Fails)][1..] == [];
    assert Exec(Job(bytes, true), r1, []) == r1;
  }

  /** A failed write and then a failed unlink leave the new, empty temp. */
  lemma FailedUnlinkLeavesTheTemp(bytes: seq<byte>)
    requires |bytes| > 0
    ensures var d0 := Disk(Dir(None, None), Dir(None, None), map[], map[], {}, 0);
            var r := Exec(Job(bytes, true), Start(d0),
                          [Kernel(Succeeds(0)), Kernel(Fails), Kernel(Succeeds(0)), Kernel(Fails)]);
            Ready(d0) && r.pc == Finished && r.rc == -1 && LiveFile(r.disk, r.disk.live.tmp) == Some([])
  {
    var job, no, ok := Job(bytes, true), Kernel(Fails), Kernel(Succeeds(0));
    var d0 := Disk(Dir(None, None), Dir(None, None), map[], map[], {}, 0);
    var r1 := Step(job, Start(d0), ok);
    var r2 := Step(job, r1, no);
    var r3 := Step(job, r2, ok);
    var r4 := Step(job, r3, no);
    assert r1.pc == AtWrite && r2.pc == AtClose && r3.pc == AtUnlink && r4.pc == Finished;
    assert Exec(job, r3, [no]) == Exec(job, r4, []);
    assert [ok, no][1..] == [no];
    assert Exec(job, r2, [ok, no]) == r4;
    assert [no, ok, no][1..] == [ok, no];
    assert Exec(job, r1, [no, ok, no]) == r4;
    assert [ok, no, ok, no][1..] == [no, ok, no];
  }

  /** The one demand on the names: a temp that is another name of the target itself is truncated by
      the open, and a crash right then loses the old file. */
  lemma TempMustNotBeTheTarget(before: seq<byte>, bytes: seq<byte>)
    requires |before| > 0 && |bytes| > 0
    ensures var d0 := Disk(Dir(Some(0), Some(0)), Dir(Some(0), Some(0)), map[0 := before], map[0 := before], {0}, 1);
            var r := Exec(Job(bytes, true), Start(d0), [Kernel(Succeeds(0)), Storage(DataReaches(0, []))]);
            TargetAfterCrash(r.disk) == Some([])
  {
    var d0 := Disk(Dir(Some(0), Some(0)), Dir(Some(0), Some(0)), map[0 := before], map[0 := before], {0}, 1);
    var e0, e1 := Kernel(Succeeds(0)), Storage(DataReaches(0, []));
    var r1 := Step(Job(bytes, true), Start(d0), e0);
    var r2 := Step(Job(bytes, true), r1, e1);
    assert Exec(Job(bytes, true), r1, [e1]) == Exec(Job(bytes, true), r2, []);
    assert [e0, e1][1..] == [e1];
  }

  // ---- The C function

  /** The calls of `Exec` alone, without storage events. */
  function Calls(job: Job, r: Run, kernel: seq<Outcome>): Run
    decreases |kernel|
  {
    if kernel == [] then r else Calls(job, Call(job, r, kernel[0]), kernel[1..])
  }

  lemma {:induction false} CallsThen(job: Job, r: Run, kernel: seq<Outcome>, i: nat)
    requires i < |kernel|
    ensures Calls(job, r, kernel[i..]) == Calls(job, Call(job, r, kernel[i]), kernel[i + 1..])
  {
    assert kernel[i..][0] == kernel[i] && kernel[i..][1..] == kernel[i + 1..];
  }

  lemma {:induction false} FinishedStays(job: Job, r: Run, kernel: seq<Outcome>)
    requires r.pc == Finished
    ensures Calls(job, r, kernel) == r
    decreases |kernel|
  {
    if kernel != [] {
      FinishedStays(job, r, kernel[1..]);
    }
  }

  /** Such calls are a run, so all that holds of runs holds of the function below. */
  lemma {:induction false} CallsAreARun(job: Job, r: Run, kernel: seq<Outcome>)
    ensures Calls(job, r, kernel) == Exec(job, r, seq(|kernel|, i requires 0 <= i < |kernel| => Kernel(kernel[i])))
    decreases |kernel|
  {
    if kernel != [] {
      var events := seq(|kernel|, i requires 0 <= i < |kernel| => Kernel(kernel[i]));
      CallsAreARun(job, Call(job, r, kernel[0]), kernel[1..]);
      assert events[1..] == seq(|kernel| - 1, i requires 0 <= i < |kernel| - 1 => Kernel(kernel[1..][i]));
    }
  }

  /** `atomic_file_write`, its system calls answered in turn by `kernel`; when the answers run out the
      machine has stopped. `r` is the run as it then stands. */
  method AtomicFileWrite(disk: Disk, bytes: seq<byte>, kernel: seq<Outcome>) returns (r: Run)
    ensures r == Calls(Job(bytes, true), Start(disk), kernel)
  {
    r := Start(disk);
    if kernel == [] { return; }
    if !kernel[0].Succeeds? {
      r := r.(pc := Finished, rc := -1);
      FinishedStays(Job(bytes, true), r, kernel[1..]);
      return;
    }
    var (d, fd) := Open(disk);
    r := r.(disk := d, fd := fd, hasFd := true, pc := if |bytes| > 0 then AtWrite else AtFsync);
    var i;
    r, i := WriteAll(r, bytes, kernel);
    if i == |kernel| { return; }
    r, i := SyncAndClose(r, Job(bytes, true), kernel, i);
    if i == |kernel| { return; }
    r := RenameOrUnlink(r, Job(bytes, true), kernel, i);
  }

  /** The write loop. */
  method WriteAll(r0: Run, bytes: seq<byte>, kernel: seq<Outcome>) returns (r: Run, i: nat)
    requires r0.pc == (if r0.off < |bytes| then AtWrite else AtFsync) && |kernel| > 0
    ensures i <= |kernel| && (i < |kernel| ==> r.pc in {AtFsync, AtClose})
    ensures Calls(Job(bytes, true), r0, kernel[1..]) == Calls(Job(bytes, true), r, kernel[i..])
  {
    hide Calls, Write;
    ghost var job := Job(bytes, true);
    r, i := r0, 1;
    while r.pc == AtWrite && i < |kernel|
      invariant i <= |kernel| && r.pc in {AtWrite, AtFsync, AtClose}
      invariant r.pc == AtWrite ==> r.off < |bytes|
      invariant Calls(job, r0, kernel[1..]) == Calls(job, r, kernel[i..])
      decreases |kernel| - i
    {
      CallsThen(job, r, kernel, i);
      var w := kernel[i];
      i := i + 1;
      if w.Interrupted? { continue; }
      if w.Fails? || w.count == 0 {
        r := r.(rc := -1, pc := AtClose);
        break;
      }
      var n := if w.count > |bytes| - r.off then |bytes| - r.off else w.count;
      r := r.(disk := Write(r.disk, r.fd, bytes[r.off..r.off + n]), off := r.off + n,
              pc := if r.off + n < |bytes| then AtWrite else AtFsync);
    }
  }

  method SyncAndClose(r0: Run, job: Job, kernel: seq<Outcome>, i0: nat) returns (r: Run, i: nat)
    requires i0 < |kernel| && r0.pc in {AtFsync, AtClose} && job.syncs
    ensures i <= |kernel| && (i < |kernel| ==> r.pc in {AtRename, AtUnlink})
    ensures Calls(job, r0, kernel[i0..]) == Calls(job, r, kernel[i..])
  {
    hide Calls;
    r, i := r0, i0;
    if r.pc == AtFsync {
      CallsThen(job, r, kernel, i);
      if kernel[i].Succeeds? {
        r := r.(disk := Fsync(r.disk, r.fd), pc := AtClose);
      } else {
        r := r.(rc := -1, pc := AtClose);
      }
      i := i + 1;
      if i == |kernel| { return; }
    }
    CallsThen(job, r, kernel, i);
    var rc := if kernel[i].Succeeds? then r.rc else -1;
    r := r.(rc := rc, pc := if rc == 0 then AtRename else AtUnlink);
    i := i + 1;
  }

  method RenameOrUnlink(r0: Run, job: Job, kernel: seq<Outcome>, i0: nat) returns (r: Run)
    requires i0 < |kernel| && r0.pc in {AtRename, AtUnlink}
    ensures r == Calls(job, r0, kernel[i0..])
  {
    r := r0;
    var i := i0;
    if r.pc == AtRename {
      CallsThen(job, r, kernel, i);
      if kernel[i].Succeeds? {
        r := r.(disk := Rename(r.disk), pc := Finished);
        FinishedStays(job, r, kernel[i + 1..]);
        return;
      }
      r := r.(rc := -1, pc := AtUnlink);
      i := i + 1;
      if i == |kernel| { return; }
    }
    CallsThen(job, r, kernel, i);
    r := r.(disk := if kernel[i].Succeeds? then Unlink(r.disk) else r.disk, unlinked := kernel[i].Succeeds?,
            pc := Finished);
    FinishedStays(job, r, kernel[i + 1..]);
  }
}
