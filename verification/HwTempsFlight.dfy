/** The basic sensors' read (payload/include/hw_temps_flight.h): the first caller that finds nothing
    fresh reads, everyone else is answered at once. Clocks are whatever each caller passes. */
module HwTempsFlight {
  import opened Wrappers

  const CACHE_MS: int := 1000
  const SLOW_MS: int := 500
  const U32: int := 0x1_0000_0000

  /** A sample: its readings (None when blank) and how long the read took. */
  datatype Sample = Sample(readings: Option<nat>, readMs: int)

  const BLANK: Sample := Sample(None, 0)

  datatype Fields = Fields(have: bool, reading: bool, stallSaid: bool, lastMs: int, startedMs: int,
                           inCall: Option<nat>, last: Sample)

  const INITIAL: Fields := Fields(false, false, false, 0, 0, None, BLANK)

  datatype Answer = ReadNow | FreshAnswer(s: Sample) | StaleAnswer(s: Sample)

  function Elapsed(now: int, started: int): int {
    if now > started then (now - started) % U32 else 0
  }

  // ---- The critical sections

  /** `hw_temps_flight_begin` */
  function Begin(f: Fields, now: int): (Fields, Answer) {
    if f.have && now >= f.lastMs && now - f.lastMs < CACHE_MS then (f, FreshAnswer(f.last))
    else if f.reading then
      (f, StaleAnswer((if f.have then f.last else BLANK).(readMs := Elapsed(now, f.startedMs))))
    else (f.(reading := true, stallSaid := false, startedMs := now), ReadNow)
  }

  /** `hw_temps_flight_end` */
  function End(f: Fields, now: int, s: Sample): Fields {
    f.(last := s.(readMs := Elapsed(now, f.startedMs)), lastMs := now, have := true, reading := false)
  }

  /** What a stall report names; `Starting` when no getter was ever set. */
  datatype Stuck = Nothing | Starting | Within(getter: nat)

  function Named(inCall: Option<nat>): Stuck {
    if inCall.None? then Starting else Within(inCall.value)
  }

  /** `hw_temps_flight_stall_once`: what this caller is to report. */
  function StallOnce(f: Fields, now: int): (Fields, Stuck) {
    if f.reading && !f.stallSaid && now >= f.startedMs && now - f.startedMs >= SLOW_MS
    then (f.(stallSaid := true), Named(f.inCall)) else (f, Nothing)
  }

  // ---- All threads together

  datatype State = State(
    fields: Fields,
    readers: map<nat, nat>,   // threads told to read and not yet done, each with its flight
    flights: nat,             // reads begun
    calls: seq<Called>,       // getters entered, in order
    reports: seq<Report>,     // stalls reported, in order
    finished: seq<Sample>,    // reads that ended, in order
    answers: seq<Answered>,   // what every begin was told
    begun: seq<int>,          // when each read was begun
    ended: seq<Ended>)        // what each read that ended got, and when

  /** An answer, with the reads finished and the clock at that time. */
  datatype Answered = Answered(answer: Answer, finished: nat, now: int, lastMs: int)

  /** A getter entered by the reader of a flight. */
  datatype Called = Called(flight: nat, getter: nat)

  /** A stall reported: of which flight, naming what, after how many getters were entered in all. */
  datatype Report = Report(flight: nat, who: Stuck, after: nat)

  /** A read that ended: what the getters gave, when it was begun, and when it ended. */
  datatype Ended = Ended(sample: Sample, began: int, now: int)

  const START: State := State(INITIAL, map[], 0, [], [], [], [], [], [])

  datatype Event =
    | BeginBy(t: nat, now: int)
    | Calls(t: nat, getter: nat)
    | EndBy(t: nat, now: int, s: Sample)
    | StallQuery(now: int)

  function Step(s: State, e: Event): State {
    match e
    case BeginBy(t, now) =>
      if t in s.readers then s
      else
        var (f, a) := Begin(s.fields, now);
        s.(fields := f,
           readers := if a == ReadNow then s.readers[t := s.flights + 1] else s.readers,
           flights := if a == ReadNow then s.flights + 1 else s.flights,
           begun := if a == ReadNow then s.begun + [now] else s.begun,
           answers := s.answers + [Answered(a, |s.finished|, now, s.fields.lastMs)])
    case Calls(t, getter) =>
      if t !in s.readers then s
      else s.(fields := s.fields.(inCall := Some(getter)), calls := s.calls + [Called(s.readers[t], getter)])
    case EndBy(t, now, sample) =>
      if t !in s.readers then s
      else
        var f := End(s.fields, now, sample);
        s.(fields := f, readers := s.readers - {t}, finished := s.finished + [f.last],
            ended := s.ended + [Ended(sample, if s.begun == [] then 0 else s.begun[|s.begun| - 1], now)])
    case StallQuery(now) =>
      var (f, who) := StallOnce(s.fields, now);
      s.(fields := f,
         reports := if who == Nothing then s.reports else s.reports + [Report(s.flights, who, |s.calls|)])
  }

  function Exec(s: State, events: seq<Event>): State
    decreases |events|
  {
    if events == [] then s else Exec(Step(s, events[0]), events[1..])
  }

  // ---- What every step keeps

  ghost predicate OneReader(s: State) {
    && (s.fields.reading <==> s.readers != map[])
    && (forall t, u | t in s.readers && u in s.readers :: t == u)
    && (forall t | t in s.readers :: s.readers[t] == s.flights)
  }

  /** Each flight is reported at most once, and `stallSaid` says whether the current one was. */
  ghost predicate ReportsGood(s: State) {
    && (forall i | 0 <= i < |s.reports| :: 0 < s.reports[i].flight <= s.flights)
    && (forall i, j | 0 <= i < j < |s.reports| :: s.reports[i].flight < s.reports[j].flight)
    && (s.fields.reading && !s.fields.stallSaid ==> forall i | 0 <= i < |s.reports| :: s.reports[i].flight < s.flights)
    && (s.fields.reading ==> s.flights > 0)
  }

  /** The getters were entered flight by flight, and the label is the last of them. */
  ghost predicate CallsGood(s: State) {
    && (forall i | 0 <= i < |s.calls| :: s.calls[i].flight <= s.flights)
    && (forall i, j | 0 <= i < j < |s.calls| :: s.calls[i].flight <= s.calls[j].flight)
    && s.fields.inCall == if s.calls == [] then None else Some(s.calls[|s.calls| - 1].getter)
  }

  /** What a report names is the last getter entered before it; that is the reported flight's own if and
      only if its reader had entered one. */
  ghost predicate LabelRight(r: Report, calls: seq<Called>) {
    && r.after <= |calls|
    && r.who == (if r.after == 0 then Starting else Within(calls[r.after - 1].getter))
    && (OwnLabel(r, calls) <==> exists i | 0 <= i < r.after :: calls[i].flight == r.flight)
  }

  predicate OwnLabel(r: Report, calls: seq<Called>)
    requires r.after <= |calls|
  {
    r.after > 0 && calls[r.after - 1].flight == r.flight
  }

  ghost predicate LabelsRight(s: State) {
    forall i | 0 <= i < |s.reports| :: LabelRight(s.reports[i], s.calls)
  }

  /** A fresh answer is the last read that had finished, within the cache time of its end; a stale one
      is it too, or blank when none had, but for the time it shows. */
  ghost predicate AnswerGood(a: Answered, finished: seq<Sample>) {
    && a.finished <= |finished|
    && match a.answer
       case ReadNow => true
       case FreshAnswer(s) => a.finished > 0 && s == finished[a.finished - 1] && 0 <= a.now - a.lastMs < CACHE_MS
       case StaleAnswer(s) =>
         s.readings == if a.finished == 0 then None else finished[a.finished - 1].readings
  }

  ghost predicate AnswersGood(s: State) {
    forall i | 0 <= i < |s.answers| :: AnswerGood(s.answers[i], s.finished)
  }

  /** The stored sample is the last read that finished. */
  ghost predicate Remembers(s: State) {
    && (s.fields.have <==> s.finished != [])
    && (s.finished != [] ==> s.fields.last == s.finished[|s.finished| - 1])
  }

  ghost predicate Inv(s: State) {
    OneReader(s) && ReportsGood(s) && Remembers(s) && AnswersGood(s) && CallsGood(s) && LabelsRight(s)
  }

  lemma StepKeepsInv(s: State, e: Event)
    requires Inv(s)
    ensures Inv(Step(s, e))
  {
    OneReaderKept(s, e);
    ReportsKept(s, e);
    AnswersKept(s, e);
    CallsKept(s, e);
    LabelsKept(s, e);
  }

  lemma OneReaderKept(s: State, e: Event)
    requires OneReader(s)
    ensures OneReader(Step(s, e))
  {
    hide Elapsed;
    if e.EndBy? && e.t in s.readers {
      assert s.readers.Keys == {e.t};
    }
  }

  lemma CallsKept(s: State, e: Event)
    requires OneReader(s) && CallsGood(s)
    ensures CallsGood(Step(s, e))
  {
    hide Elapsed;
  }

  /** Later getters change no report, and the one made now is right. */
  lemma LabelsKept(s: State, e: Event)
    requires CallsGood(s) && LabelsRight(s)
    ensures LabelsRight(Step(s, e))
  {
    hide Elapsed;
    var s' := Step(s, e);
    forall i | 0 <= i < |s'.reports| ensures LabelRight(s'.reports[i], s'.calls) {
      if i < |s.reports| {
        var r := s.reports[i];
        assert LabelRight(r, s.calls);
        assert forall k | 0 <= k < |s.calls| :: s'.calls[k] == s.calls[k];
      } else {
        assert s'.calls == s.calls && s'.reports[i] == Report(s.flights, Named(s.fields.inCall), |s.calls|);
      }
    }
  }

  lemma ReportsKept(s: State, e: Event)
    requires ReportsGood(s)
    ensures ReportsGood(Step(s, e))
  {
    hide Elapsed;
  }

  /** What was answered stays as good, and so is the answer of this step. */
  lemma AnswersKept(s: State, e: Event)
    requires Remembers(s) && AnswersGood(s)
    ensures Remembers(Step(s, e)) && AnswersGood(Step(s, e))
  {
    hide Elapsed;
    var s' := Step(s, e);
    forall i | 0 <= i < |s.answers| ensures AnswerGood(s.answers[i], s'.finished) {
      assert AnswerGood(s.answers[i], s.finished);
    }
  }

  lemma {:induction false} ExecKeepsInv(s: State, events: seq<Event>)
    requires Inv(s)
    ensures Inv(Exec(s, events))
    decreases |events|
  {
    if events != [] {
      StepKeepsInv(s, events[0]);
      ExecKeepsInv(Step(s, events[0]), events[1..]);
    }
  }

  /** In every run: at most one caller is inside the getters; each flight's stall is reported at most
      once; and every answer is a whole finished read or blank, a fresh one within its cache time. */
  lemma OneReaderOneReport(events: seq<Event>)
    ensures var s := Exec(START, events);
            && |s.readers| <= 1 && (s.fields.reading <==> |s.readers| == 1)
            && (forall i, j | 0 <= i < j < |s.reports| :: s.reports[i].flight != s.reports[j].flight)
            && (forall i | 0 <= i < |s.answers| :: AnswerGood(s.answers[i], s.finished))
  {
    ExecKeepsInv(START, events);
    var s := Exec(START, events);
    if s.readers != map[] {
      var t :| t in s.readers;
      assert s.readers.Keys == {t};
    }
  }

  /** In every run: a stall report names the last getter entered before it, and that getter was entered by
      the reported read if and only if that read had entered any. */
  lemma ReportNamesItsOwnCallIff(events: seq<Event>)
    ensures var s := Exec(START, events);
            forall i | 0 <= i < |s.reports| :: LabelRight(s.reports[i], s.calls)
  {
    ExecKeepsInv(START, events);
  }

  // ---- What every caller is told, from the history alone

  /** Milliseconds from one time to another, as 32 bits show them; none when the clock went back. */
  function Millis(start: int, end: int): int {
    if end <= start then 0 else (end - start) % 0x1_0000_0000
  }

  /** The sample of a read, with the time it took. */
  function SampleOf(e: Ended): Sample {
    e.sample.(readMs := Millis(e.began, e.now))
  }

  /** The fields say what the history says. */
  ghost predicate HistoryGood(s: State) {
    && |s.begun| == s.flights
    && (s.readers != map[] ==> s.begun != [] && s.fields.startedMs == s.begun[|s.begun| - 1])
    && (s.fields.have <==> s.ended != [])
    && (s.ended != [] ==>
          var e := s.ended[|s.ended| - 1];
          s.fields.last == SampleOf(e) && s.fields.lastMs == e.now)
    && (s.fields.reading && s.fields.stallSaid ==> Reported(s))
  }

  /** The current read's stall has been reported. */
  ghost predicate Reported(s: State) {
    exists i | 0 <= i < |s.reports| :: s.reports[i].flight == s.flights
  }

  lemma HistoryKept(s: State, e: Event)
    requires OneReader(s) && ReportsGood(s) && HistoryGood(s)
    ensures HistoryGood(Step(s, e))
  {
    var s' := Step(s, e);
    if Reported(s) && s'.flights == s.flights {
      var i :| 0 <= i < |s.reports| && s.reports[i].flight == s.flights;
      assert s'.reports[i] == s.reports[i];
    }
    if e.StallQuery? && s'.reports != s.reports {
      assert s'.reports[|s.reports|].flight == s.flights;
    }
  }

  lemma {:induction false} ExecKeepsHistory(s: State, events: seq<Event>)
    requires Inv(s) && HistoryGood(s)
    ensures Inv(Exec(s, events)) && HistoryGood(Exec(s, events))
    decreases |events|
  {
    if events != [] {
      StepKeepsInv(s, events[0]);
      HistoryKept(s, events[0]);
      ExecKeepsHistory(Step(s, events[0]), events[1..]);
    }
  }

  /** After any run, a caller that is not reading is given the last read that ended, with the time it took, if that
      was less than a second ago; otherwise, while another reads, that read again, or a blank one, with the time the
      other has been at it; and otherwise it is to read. */
  lemma BeginMeans(events: seq<Event>, t: nat, now: int)
    ensures var s := Exec(START, events);
            var s' := Step(s, BeginBy(t, now));
            var last := if s.ended == [] then [] else [s.ended[|s.ended| - 1]];
            t !in s.readers ==>
              && |s'.answers| == |s.answers| + 1
              && s'.answers[|s.answers|].answer ==
                   (if last != [] && 0 <= now - last[0].now < 1000 then FreshAnswer(SampleOf(last[0]))
                    else if s.readers != map[] then
                      StaleAnswer((if last == [] then Sample(None, 0) else SampleOf(last[0])).(
                        readMs := if s.begun == [] then 0 else Millis(s.begun[|s.begun| - 1], now)))
                    else ReadNow)
              && (s'.answers[|s.answers|].answer == ReadNow <==> t in s'.readers)
  {
    ExecKeepsHistory(START, events);
  }

  /** And a stall is reported if and only if a read is going on, has been for half a second or more, and was not
      reported before. */
  lemma StallMeans(events: seq<Event>, now: int)
    ensures var s := Exec(START, events);
            |Step(s, StallQuery(now)).reports| > |s.reports| <==>
              s.readers != map[] && s.begun != [] && now - s.begun[|s.begun| - 1] >= 500 && !Reported(s)
  {
    ExecKeepsHistory(START, events);
  }

  /** The label a stall report names is not tied to the read it is about: one that has set none yet is
      reported in the call its predecessor made last. */
  lemma StallMayNameAnEarlierCall()
    ensures var s := Exec(START, [BeginBy(1, 0), Calls(1, 7), EndBy(1, 1, BLANK), BeginBy(2, 2000), StallQuery(2600)]);
            s.reports == [Report(2, Within(7), 1)] && s.calls == [Called(1, 7)] && !OwnLabel(s.reports[0], s.calls)
  {
    var e0, e1, e2, e3, e4 := BeginBy(1, 0), Calls(1, 7), EndBy(1, 1, BLANK), BeginBy(2, 2000), StallQuery(2600);
    var s1 := Step(START, e0);
    var s2 := Step(s1, e1);
    var s3 := Step(s2, e2);
    var s4 := Step(s3, e3);
    var s5 := Step(s4, e4);
    assert Exec(s4, [e4]) == Exec(s5, []);
    assert [e3, e4][1..] == [e4];
    assert Exec(s3, [e3, e4]) == s5;
    assert [e2, e3, e4][1..] == [e3, e4];
    assert Exec(s2, [e2, e3, e4]) == s5;
    assert [e1, e2, e3, e4][1..] == [e2, e3, e4];
    assert Exec(s1, [e1, e2, e3, e4]) == s5;
    assert [e0, e1, e2, e3, e4][1..] == [e1, e2, e3, e4];
  }

  // ---- The state object

  class Flight {
    var have: bool
    var reading: bool
    var stallSaid: bool
    var lastMs: int
    var startedMs: int
    var inCall: Option<nat>
    var last: Sample

    ghost function View(): Fields
      reads this
    {
      Fields(have, reading, stallSaid, lastMs, startedMs, inCall, last)
    }

    constructor ()
      ensures View() == INITIAL
    {
      have, reading, stallSaid, lastMs, startedMs, inCall, last := false, false, false, 0, 0, None, BLANK;
    }

    method BeginSection(now: int) returns (a: Answer)
      modifies this
      ensures (View(), a) == Begin(old(View()), now)
    {
      if have && now >= lastMs && now - lastMs < CACHE_MS {
        return FreshAnswer(last);
      } else if reading {
        var out := if have then last else BLANK;
        return StaleAnswer(out.(readMs := Elapsed(now, startedMs)));
      }
      reading := true;
      stallSaid := false;
      startedMs := now;
      a := ReadNow;
    }

    method EndSection(now: int, s: Sample)
      modifies this
      ensures View() == End(old(View()), now, s)
    {
      last := s.(readMs := Elapsed(now, startedMs));
      lastMs := now;
      have := true;
      reading := false;
    }

    /** `hw_temps_flight_in_call` */
    method InCall(getter: nat)
      modifies this
      ensures View() == old(View()).(inCall := Some(getter))
    {
      inCall := Some(getter);
    }

    method StallSection(now: int) returns (who: Stuck)
      modifies this
      ensures (View(), who) == StallOnce(old(View()), now)
    {
      who := Nothing;
      if reading && !stallSaid && now >= startedMs && now - startedMs >= SLOW_MS {
        stallSaid := true;
        who := Starting;
        if inCall.Some? {
          who := Within(inCall.value);
        }
      }
    }
  }
}
