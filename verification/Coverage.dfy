/** Which bytes of a served package have been sent: a bounded, sorted interval set
    (payload/installer/jobs.c, payload/installer/jobs.h). */
module Coverage {
  import opened Bytes

  const MAX: nat := 256

  type u64 = x: int | 0 <= x < U64

  /** An inclusive byte range. */
  datatype Interval = Interval(start: u64, end: u64)

  // ---- uint64_t arithmetic, wrap-around included

  function Succ(x: u64): u64 {
    (x + 1) % U64
  }

  /** The bytes between interval `i` and the next, in 64 bits. */
  function Gap(s: seq<Interval>, i: nat): u64
    requires i + 1 < |s|
  {
    (s[i + 1].start - s[i].end - 1) % U64
  }

  // ---- What the in-place code computes, as functions of the stored sequence

  /** How many leading intervals start before `start`. */
  function Position(s: seq<Interval>, start: u64): (p: nat)
    ensures p <= |s|
    ensures forall i | 0 <= i < p :: s[i].start < start
    ensures p < |s| ==> s[p].start >= start
  {
    if s == [] || s[0].start >= start then 0 else 1 + Position(s[1..], start)
  }

  /** There is only one such position. */
  lemma {:induction false} PositionIs(s: seq<Interval>, start: u64, p: nat)
    requires p <= |s| && (forall i | 0 <= i < p :: s[i].start < start) && (p < |s| ==> s[p].start >= start)
    ensures Position(s, start) == p
    decreases p
  {
    if p > 0 {
      PositionIs(s[1..], start, p - 1);
    }
  }

  /** The first index of the smallest gap among the first `n` neighbour pairs. */
  function SmallestGap(s: seq<Interval>, n: nat): (best: nat)
    requires 0 < n < |s|
    ensures best < n
    ensures forall i | 0 <= i < n :: Gap(s, best) <= Gap(s, i)
    ensures forall i | 0 <= i < best :: Gap(s, best) < Gap(s, i)
  {
    if n == 1 then 0
    else
      var b := SmallestGap(s, n - 1);
      if Gap(s, n - 1) < Gap(s, b) then n - 1 else b
  }

  function Later(x: u64, y: u64): u64 {
    if y > x then y else x
  }

  /** The pair at `best` made one interval. */
  function Join(s: seq<Interval>, best: nat): seq<Interval>
    requires best + 1 < |s|
  {
    s[..best] + [Interval(s[best].start, Later(s[best].end, s[best + 1].end))] + s[best + 2..]
  }

  lemma JoinAtEach(s: seq<Interval>, best: nat)
    requires best + 1 < |s|
    ensures var joined := Join(s, best);
            && |joined| == |s| - 1
            && joined[best] == Interval(s[best].start, Later(s[best].end, s[best + 1].end))
            && (forall k | 0 <= k < best :: joined[k] == s[k])
            && (forall k | best < k < |s| - 1 :: joined[k] == s[k + 1])
  {
  }

  function Coalesce(s: seq<Interval>): seq<Interval>
    requires |s| > 1
  {
    Join(s, SmallestGap(s, |s| - 1))
  }

  function Insert(s: seq<Interval>, pos: nat, iv: Interval): seq<Interval>
    requires pos <= |s|
  {
    s[..pos] + [iv] + s[pos..]
  }

  /** The forward merge pass, with `w` the interval being grown. */
  function Merge(w: Interval, rest: seq<Interval>): seq<Interval>
    decreases |rest|
  {
    if rest == [] then [w]
    else if rest[0].start <= Succ(w.end) then
      Merge(Interval(w.start, Later(w.end, rest[0].end)), rest[1..])
    else
      [w] + Merge(rest[0], rest[1..])
  }

  function MergeAll(s: seq<Interval>): seq<Interval>
    requires s != []
  {
    Merge(s[0], s[1..])
  }

  /** `inst_coverage_add` as the code stands: at the cap the position found before coalescing is
      only clamped. */
  function Add(s: seq<Interval>, start: u64, end: u64): seq<Interval>
    requires |s| <= MAX
  {
    if end < start then s
    else
      var pos := Position(s, start);
      if |s| >= MAX then
        var c := Coalesce(s);
        MergeAll(Insert(c, if pos > |c| then |c| else pos, Interval(start, end)))
      else
        MergeAll(Insert(s, pos, Interval(start, end)))
  }

  /** The same with the position re-derived after coalescing, as the comment in the code has it. */
  function AddRederived(s: seq<Interval>, start: u64, end: u64): seq<Interval>
    requires |s| <= MAX
  {
    if end < start then s
    else
      var c := if |s| >= MAX then Coalesce(s) else s;
      MergeAll(Insert(c, Position(c, start), Interval(start, end)))
  }

  // ---- Meaning

  ghost predicate Covers(s: seq<Interval>, x: int) {
    exists i | 0 <= i < |s| :: s[i].start <= x <= s[i].end
  }

  ghost predicate InRange(iv: Interval, x: int) {
    iv.start <= x <= iv.end
  }

  /** A proper range; its end is a byte of some file, so it is never the last u64. */
  predicate Proper(iv: Interval) {
    iv.start <= iv.end < U64 - 1
  }

  ghost predicate AllProper(s: seq<Interval>) {
    forall i | 0 <= i < |s| :: Proper(s[i])
  }

  /** Sorted by start, overlaps allowed. */
  ghost predicate Sorted(s: seq<Interval>) {
    forall i, j | 0 <= i < j < |s| :: s[i].start <= s[j].start
  }

  /** Sorted, disjoint and not even adjacent. */
  ghost predicate Separated(s: seq<Interval>) {
    forall i, j | 0 <= i < j < |s| :: s[i].end + 1 < s[j].start
  }

  ghost predicate WellFormed(s: seq<Interval>) {
    |s| <= MAX && AllProper(s) && Separated(s)
  }

  // ---- The merge pass

  /** On input sorted by start the merge pass yields separated intervals covering the same bytes. */
  lemma {:induction false} MergeSorted(w: Interval, rest: seq<Interval>)
    requires Proper(w) && AllProper(rest) && Sorted([w] + rest)
    ensures var r := Merge(w, rest);
            && 0 < |r| <= |rest| + 1 && AllProper(r) && Separated(r) && r[0].start == w.start
    ensures forall x :: Covers(Merge(w, rest), x) <==> InRange(w, x) || Covers(rest, x)
    decreases |rest|
  {
    if rest != [] {
      var n := rest[0];
      SortedTail(w, rest);
      CoversHead(rest);
      if n.start <= Succ(w.end) {
        MergeSorted(Interval(w.start, Later(w.end, n.end)), rest[1..]);
      } else {
        MergeSorted(n, rest[1..]);
        var r := Merge(n, rest[1..]);
        CoversCons(w, r);
        SeparatedCons(w, r);
      }
    }
  }

  /** The tail of a sorted list is sorted, and so is it after a head that starts as early as the first. */
  lemma SortedTail(w: Interval, rest: seq<Interval>)
    requires Sorted([w] + rest) && rest != []
    ensures w.start <= rest[0].start && Sorted([rest[0]] + rest[1..])
    ensures forall e: u64 :: Sorted([Interval(w.start, e)] + rest[1..])
  {
    var all := [w] + rest;
    assert [rest[0]] + rest[1..] == rest;
    assert all[0].start <= all[1].start;
    forall i, j | 0 <= i < j < |rest| ensures rest[i].start <= rest[j].start {
      assert all[i + 1].start <= all[j + 1].start;
    }
    forall j | 0 < j < |rest| ensures w.start <= rest[j].start {
      assert all[0].start <= all[j + 1].start;
    }
  }

  lemma CoversCons(w: Interval, r: seq<Interval>)
    ensures forall x :: Covers([w] + r, x) <==> InRange(w, x) || Covers(r, x)
  {
    CoversHead([w] + r);
    assert ([w] + r)[1..] == r;
  }

  lemma CoversHead(s: seq<Interval>)
    requires s != []
    ensures forall x :: Covers(s, x) <==> InRange(s[0], x) || Covers(s[1..], x)
  {
    forall x ensures Covers(s, x) <==> InRange(s[0], x) || Covers(s[1..], x) {
      if Covers(s, x) {
        var i :| 0 <= i < |s| && s[i].start <= x <= s[i].end;
        assert i > 0 ==> s[1..][i - 1] == s[i];
      }
      if Covers(s[1..], x) {
        var i :| 0 <= i < |s[1..]| && s[1..][i].start <= x <= s[1..][i].end;
        assert s[i + 1] == s[1..][i];
      }
    }
  }

  lemma SeparatedCons(w: Interval, r: seq<Interval>)
    requires r != [] && AllProper(r) && Separated(r) && w.end + 1 < r[0].start
    ensures Separated([w] + r)
  {
    forall j | 0 <= j < |r| ensures w.end + 1 < r[j].start {
      assert j > 0 ==> r[0].end + 1 < r[j].start;
    }
  }

  lemma CoversConcat(s: seq<Interval>, t: seq<Interval>)
    ensures forall x :: Covers(s + t, x) <==> Covers(s, x) || Covers(t, x)
  {
    forall x ensures Covers(s + t, x) <==> Covers(s, x) || Covers(t, x) {
      if Covers(s + t, x) {
        var i :| 0 <= i < |s + t| && (s + t)[i].start <= x <= (s + t)[i].end;
        assert i >= |s| ==> (s + t)[i] == t[i - |s|];
      }
      if Covers(s, x) {
        var i :| 0 <= i < |s| && s[i].start <= x <= s[i].end;
        assert (s + t)[i] == s[i];
      }
      if Covers(t, x) {
        var i :| 0 <= i < |t| && t[i].start <= x <= t[i].end;
        assert (s + t)[|s| + i] == t[i];
      }
    }
  }

  lemma CoversInsert(s: seq<Interval>, pos: nat, iv: Interval)
    requires pos <= |s|
    ensures forall x :: Covers(Insert(s, pos, iv), x) <==> Covers(s, x) || InRange(iv, x)
  {
    CoversConcat(s[..pos], [iv]);
    CoversConcat(s[..pos] + [iv], s[pos..]);
    CoversConcat(s[..pos], s[pos..]);
    assert s == s[..pos] + s[pos..];
    CoversHead([iv]);
  }

  // ---- Adding at a position that keeps the starts in order

  /** Inserting where the starts stay sorted, then merging: the exact union, well formed. */
  lemma InsertSorted(s: seq<Interval>, pos: nat, iv: Interval)
    requires pos <= |s| < MAX && AllProper(s) && Separated(s) && Proper(iv)
    requires forall i | 0 <= i < pos :: s[i].start <= iv.start
    requires forall i | pos <= i < |s| :: iv.start <= s[i].start
    ensures WellFormed(MergeAll(Insert(s, pos, iv)))
    ensures forall x :: Covers(MergeAll(Insert(s, pos, iv)), x) <==> Covers(s, x) || InRange(iv, x)
  {
    hide Covers, Merge;
    var t := Insert(s, pos, iv);
    InsertedSorted(s, pos, iv);
    assert [t[0]] + t[1..] == t;
    MergeSorted(t[0], t[1..]);
    CoversInsert(s, pos, iv);
    CoversHead(t);
  }

  lemma InsertedSorted(s: seq<Interval>, pos: nat, iv: Interval)
    requires pos <= |s| && AllProper(s) && Separated(s) && Proper(iv)
    requires forall i | 0 <= i < pos :: s[i].start <= iv.start
    requires forall i | pos <= i < |s| :: iv.start <= s[i].start
    ensures AllProper(Insert(s, pos, iv)) && Sorted(Insert(s, pos, iv))
  {
    assert forall i, j | 0 <= i < j < |s| :: s[i].start <= s[j].start;
  }

  lemma PositionSorts(s: seq<Interval>, start: u64)
    requires AllProper(s) && Separated(s)
    ensures var p := Position(s, start);
            && (forall i | 0 <= i < p :: s[i].start <= start)
            && (forall i | p <= i < |s| :: start <= s[i].start)
  {
    var p := Position(s, start);
    forall i | p <= i < |s| ensures start <= s[i].start {
      assert p < i ==> s[p].end + 1 < s[i].start;
    }
  }

  // ---- Coalescing

  /** Joining a pair keeps the set well formed and adds exactly the bytes of the gap. */
  lemma JoinCovers(s: seq<Interval>, best: nat)
    requires AllProper(s) && Separated(s) && best + 1 < |s|
    ensures AllProper(Join(s, best)) && Separated(Join(s, best)) && |Join(s, best)| == |s| - 1
    ensures forall x :: Covers(Join(s, best), x) <==> Covers(s, x) || s[best].end < x < s[best + 1].start
  {
    var a, b := s[best], s[best + 1];
    assert a.end + 1 < b.start;
    var j := Interval(a.start, b.end);
    var front, back := s[..best], s[best + 2..];
    assert s == front + [a] + [b] + back;
    CoversConcat(front, [a]); CoversConcat(front + [a], [b]); CoversConcat(front + [a] + [b], back);
    CoversConcat(front, [j]); CoversConcat(front + [j], back);
    CoversHead([a]); CoversHead([b]); CoversHead([j]);
    assert Join(s, best) == front + [j] + back;
    SeparatedJoin(s, best);
  }

  lemma SeparatedJoin(s: seq<Interval>, best: nat)
    requires AllProper(s) && Separated(s) && best + 1 < |s|
    ensures AllProper(Join(s, best)) && Separated(Join(s, best))
  {
    var c := Join(s, best);
    assert s[best].end + 1 < s[best + 1].start;
    forall i | 0 <= i < |c| ensures Proper(c[i]) {
      if i > best { assert c[i] == s[i + 1]; }
    }
    forall i, k | 0 <= i < k < |c| ensures c[i].end + 1 < c[k].start {
      assert c[i].end == if i < best then s[i].end else s[i + 1].end;
      assert c[k].start == if k <= best then s[k].start else s[k + 1].start;
    }
  }

  // ---- Main results

  /** Below the cap, adding a range yields exactly the union. */
  lemma AddIsUnionBelowCap(s: seq<Interval>, start: u64, end: u64)
    requires WellFormed(s) && |s| < MAX && Proper(Interval(start, end))
    ensures WellFormed(Add(s, start, end))
    ensures forall x :: Covers(Add(s, start, end), x) <==> Covers(s, x) || start <= x <= end
  {
    AddSorted(s, start, end);
  }

  /** The gap that coalescing a full set fills in. */
  ghost predicate InJoinedGap(s: seq<Interval>, x: int)
    requires |s| > 1
  {
    var best := SmallestGap(s, |s| - 1);
    s[best].end < x < s[best + 1].start
  }

  /** With the position re-derived, nothing served is lost at the cap either: the result is the
      union plus the bytes of the smallest gap. */
  lemma AddRederivedAtCap(s: seq<Interval>, start: u64, end: u64)
    requires WellFormed(s) && |s| == MAX && Proper(Interval(start, end))
    ensures WellFormed(AddRederived(s, start, end))
    ensures forall x :: Covers(AddRederived(s, start, end), x)
                        <==> Covers(s, x) || InJoinedGap(s, x) || start <= x <= end
  {
    CoalesceCovers(s);
    AddSorted(Coalesce(s), start, end);
  }

  lemma CoalesceCovers(s: seq<Interval>)
    requires WellFormed(s) && |s| > 1
    ensures WellFormed(Coalesce(s)) && |Coalesce(s)| == |s| - 1
    ensures forall x :: Covers(Coalesce(s), x) <==> Covers(s, x) || InJoinedGap(s, x)
  {
    JoinCovers(s, SmallestGap(s, |s| - 1));
  }

  lemma AddSorted(c: seq<Interval>, start: u64, end: u64)
    requires WellFormed(c) && |c| < MAX && Proper(Interval(start, end))
    ensures var t := MergeAll(Insert(c, Position(c, start), Interval(start, end)));
            && WellFormed(t)
            && forall x :: Covers(t, x) <==> Covers(c, x) || start <= x <= end
  {
    PositionSorts(c, start);
    InsertSorted(c, Position(c, start), Interval(start, end));
  }

  /** The pair that was coalesced lies wholly before the insert position, and the position was not
      the end: the position is then one too far. */
  predicate Misplaced(s: seq<Interval>, start: u64)
    requires |s| > 1
  {
    SmallestGap(s, |s| - 1) + 2 <= Position(s, start) < |s|
  }

  lemma JoinStarts(s: seq<Interval>, best: nat)
    requires best + 1 < |s|
    ensures forall i | 0 <= i < |s| - 1 :: Join(s, best)[i].start == s[if i <= best then i else i + 1].start
  {
  }

  /** When not misplaced, the clamped position keeps the starts in order and no byte is lost. */
  lemma AddAtCapInPlace(s: seq<Interval>, start: u64, end: u64)
    requires WellFormed(s) && |s| == MAX && Proper(Interval(start, end)) && !Misplaced(s, start)
    ensures WellFormed(Add(s, start, end))
    ensures forall x :: Covers(Add(s, start, end), x)
                        <==> Covers(s, x) || InJoinedGap(s, x) || start <= x <= end
  {
    hide Covers, MergeAll, Insert;
    var best := SmallestGap(s, MAX - 1);
    var pos := Position(s, start);
    JoinCovers(s, best);
    InPlaceOrder(s, best, pos, start);
    InsertSorted(Join(s, best), if pos > MAX - 1 then MAX - 1 else pos, Interval(start, end));
  }

  lemma InPlaceOrder(s: seq<Interval>, best: nat, pos: nat, start: u64)
    requires WellFormed(s) && |s| == MAX && best + 1 < MAX && pos == Position(s, start)
    requires !(best + 2 <= pos < MAX)
    ensures var c, at := Join(s, best), if pos > MAX - 1 then MAX - 1 else pos;
            && (forall i | 0 <= i < at :: c[i].start <= start)
            && (forall i | at <= i < MAX - 1 :: start <= c[i].start)
  {
    PositionSorts(s, start);
    JoinStarts(s, best);
  }

  /** A merge in which `iv` follows `lead` but starts no later: what `iv` has before `lead` is
      dropped, as if it had started at `lead.start`. */
  lemma {:induction false} MergeDropsEarlyStart(w: Interval, front: seq<Interval>, lead: Interval,
                                                 iv: Interval, back: seq<Interval>)
    requires Proper(w) && AllProper(front) && Proper(lead) && iv.start <= lead.start
    ensures Merge(w, front + [lead, iv] + back)
            == Merge(w, front + [lead, Interval(lead.start, Later(lead.end, iv.end))] + back)
    decreases |front|
  {
    var raised := Interval(lead.start, Later(lead.end, iv.end));
    var t, u := front + [lead, iv] + back, front + [lead, raised] + back;
    if front == [] {
      var tail, tail' := [iv] + back, [raised] + back;
      assert t[1..] == tail && u[1..] == tail' && tail[1..] == back && tail'[1..] == back;
    } else {
      assert t[1..] == front[1..] + [lead, iv] + back && u[1..] == front[1..] + [lead, raised] + back;
      MergeDropsEarlyStart(Interval(w.start, Later(w.end, front[0].end)), front[1..], lead, iv, back);
      MergeDropsEarlyStart(front[0], front[1..], lead, iv, back);
    }
  }

  /** When misplaced, the set stays well formed and keeps all it had, but of the new range exactly
      the bytes before the next interval's start are dropped. */
  lemma AddAtCapMisplaced(s: seq<Interval>, start: u64, end: u64)
    requires WellFormed(s) && |s| == MAX && Proper(Interval(start, end)) && Misplaced(s, start)
    ensures WellFormed(Add(s, start, end))
    ensures var next := s[Position(s, start)].start;
            forall x :: Covers(Add(s, start, end), x)
                        <==> Covers(s, x) || InJoinedGap(s, x) || (start <= x <= end && next <= x)
  {
    var c, pos := Coalesce(s), Position(s, start);
    CoalesceCovers(s);
    MisplacedLead(s, SmallestGap(s, MAX - 1), start);
    MisplacedMerge(c, pos, Interval(start, end));
    RaisedCovers(c, pos, Interval(start, end));
  }

  lemma MisplacedLead(s: seq<Interval>, best: nat, start: u64)
    requires WellFormed(s) && |s| == MAX && best + 2 <= Position(s, start) < MAX
    ensures var c, pos := Join(s, best), Position(s, start);
            && c[pos - 1] == s[pos]
            && forall i | pos <= i < MAX - 1 :: c[i] == s[i + 1]
  {
  }

  lemma RaisedCovers(c: seq<Interval>, pos: nat, iv: Interval)
    requires WellFormed(c) && 0 < pos <= |c| < MAX && Proper(iv) && iv.start <= c[pos - 1].start
    ensures var lead := c[pos - 1];
            var t := MergeAll(Insert(c, pos, Interval(lead.start, Later(lead.end, iv.end))));
            && WellFormed(t)
            && forall x :: Covers(t, x) <==> Covers(c, x) || (InRange(iv, x) && lead.start <= x)
  {
    var lead := c[pos - 1];
    var raised := Interval(lead.start, Later(lead.end, iv.end));
    forall i | 0 <= i < |c| ensures i < pos ==> c[i].start <= lead.start
                            ensures i >= pos ==> lead.start <= c[i].start {
      assert i < pos - 1 ==> c[i].end + 1 < lead.start;
      assert i >= pos ==> lead.end + 1 < c[i].start;
    }
    InsertSorted(c, pos, raised);
    forall x | InRange(lead, x) ensures Covers(c, x) {
      assert c[pos - 1].start <= x <= c[pos - 1].end;
    }
  }

  lemma MisplacedMerge(c: seq<Interval>, pos: nat, iv: Interval)
    requires AllProper(c) && 1 < pos <= |c| && iv.start <= c[pos - 1].start
    ensures MergeAll(Insert(c, pos, iv))
            == MergeAll(Insert(c, pos, Interval(c[pos - 1].start, Later(c[pos - 1].end, iv.end))))
  {
    var lead := c[pos - 1];
    var raised := Interval(lead.start, Later(lead.end, iv.end));
    var front := c[1..pos - 1];
    assert Insert(c, pos, iv)[1..] == front + [lead, iv] + c[pos..];
    assert Insert(c, pos, raised)[1..] == front + [lead, raised] + c[pos..];
    MergeDropsEarlyStart(c[0], front, lead, iv, c[pos..]);
  }

  /** Exactly what one call leaves covered, at the cap or not: all it covered, the new range but for
      the dropped part, and at the cap the joined gap. Nothing that was covered is ever lost. */
  lemma AddExact(s: seq<Interval>, start: u64, end: u64)
    requires WellFormed(s) && Proper(Interval(start, end))
    ensures WellFormed(Add(s, start, end))
    ensures forall x :: Covers(Add(s, start, end), x) <==>
              || Covers(s, x)
              || (|s| == MAX && InJoinedGap(s, x))
              || (start <= x <= end
                  && !(|s| == MAX && Misplaced(s, start) && x < s[Position(s, start)].start))
  {
    if |s| < MAX {
      AddIsUnionBelowCap(s, start, end);
    } else if Misplaced(s, start) {
      AddAtCapMisplaced(s, start, end);
    } else {
      AddAtCapInPlace(s, start, end);
    }
  }

  /** The freshly served bytes are all recorded if and only if the set was not full, or the position
      was right, or the next interval starts with them, or the one before already held them. */
  lemma ServedBytesKeptIff(s: seq<Interval>, start: u64, end: u64)
    requires WellFormed(s) && Proper(Interval(start, end))
    ensures (forall x | start <= x <= end :: Covers(Add(s, start, end), x)) <==>
              || |s| < MAX
              || !Misplaced(s, start)
              || s[Position(s, start)].start == start
              || end <= s[Position(s, start) - 1].end
  {
    AddExact(s, start, end);
    if |s| == MAX && Misplaced(s, start) {
      var pos := Position(s, start);
      if end <= s[pos - 1].end {
        forall x | start <= x <= end ensures Covers(s, x) {
          assert s[pos - 1].start <= x <= s[pos - 1].end;
        }
      } else if s[pos].start > start {
        var x := DroppedByte(s, start, end);
        assert !Covers(Add(s, start, end), x);
      }
    }
  }

  /** A call records nothing but the set and the range if and only if the set was not full, or the range
      itself spans the smallest gap. The header allows more only for a range disjoint from the set. */
  lemma NothingExtraIff(s: seq<Interval>, start: u64, end: u64)
    requires WellFormed(s) && Proper(Interval(start, end))
    ensures (forall x | Covers(Add(s, start, end), x) :: Covers(s, x) || start <= x <= end) <==>
              || |s| < MAX
              || (var best := SmallestGap(s, MAX - 1);
                  start <= s[best].end + 1 && s[best + 1].start - 1 <= end)
  {
    AddExact(s, start, end);
    if |s| == MAX {
      var best := SmallestGap(s, MAX - 1);
      var low, high := s[best].end + 1, s[best + 1].start - 1;
      assert s[best].end + 1 < s[best + 1].start;
      BetweenNeighbours(s, best + 1, low);
      BetweenNeighbours(s, best + 1, high);
      assert InJoinedGap(s, low) && InJoinedGap(s, high);
    }
  }

  lemma DroppedByte(s: seq<Interval>, start: u64, end: u64) returns (x: int)
    requires WellFormed(s) && |s| == MAX && Proper(Interval(start, end)) && Misplaced(s, start)
    requires var pos := Position(s, start); s[pos - 1].end < end && start < s[pos].start
    ensures start <= x <= end && x < s[Position(s, start)].start
    ensures !Covers(s, x) && !InJoinedGap(s, x)
  {
    var pos := Position(s, start);
    var best := SmallestGap(s, MAX - 1);
    x := Later(start, s[pos - 1].end + 1);
    assert s[pos - 1].end + 1 < s[pos].start;
    BetweenNeighbours(s, pos, x);
    if best + 1 < pos - 1 {
      assert s[best + 1].end + 1 < s[pos - 1].start;
    }
  }

  lemma BetweenNeighbours(s: seq<Interval>, pos: nat, x: int)
    requires AllProper(s) && Separated(s) && 0 < pos < |s| && s[pos - 1].end < x < s[pos].start
    ensures !Covers(s, x)
  {
  }

  // ---- Whole runs

  /** The set after adding the ranges in turn to an empty one. */
  function Run(ranges: seq<Interval>): (s: seq<Interval>)
    ensures |s| <= 256
    decreases |ranges|
  {
    if ranges == [] then []
    else
      var s := Run(ranges[..|ranges| - 1]);
      var iv := ranges[|ranges| - 1];
      AddLength(s, iv.start, iv.end);
      Add(s, iv.start, iv.end)
  }

  lemma {:induction false} MergeLength(w: Interval, rest: seq<Interval>)
    ensures 0 < |Merge(w, rest)| <= |rest| + 1
    decreases |rest|
  {
    if rest != [] {
      MergeLength(Interval(w.start, Later(w.end, rest[0].end)), rest[1..]);
      MergeLength(rest[0], rest[1..]);
    }
  }

  /** The bound of the array holds for any input, well formed or not. */
  lemma AddLength(s: seq<Interval>, start: u64, end: u64)
    requires |s| <= MAX
    ensures |Add(s, start, end)| <= 256
  {
    if end >= start {
      var pos := Position(s, start);
      var c := if |s| >= MAX then Coalesce(s) else s;
      var t := Insert(c, if pos > |c| then |c| else pos, Interval(start, end));
      MergeLength(t[0], t[1..]);
    }
  }

  /** Every run keeps the set sorted, disjoint, non-adjacent and within its bound. */
  lemma {:induction false} RunWellFormed(ranges: seq<Interval>)
    requires AllProper(ranges)
    ensures WellFormed(Run(ranges))
    decreases |ranges|
  {
    if ranges != [] {
      var n := |ranges| - 1;
      RunWellFormed(ranges[..n]);
      AddExact(Run(ranges[..n]), ranges[n].start, ranges[n].end);
    }
  }

  lemma AddNeverForgets(s: seq<Interval>, start: u64, end: u64, x: int)
    requires WellFormed(s) && Proper(Interval(start, end)) && Covers(s, x)
    ensures Covers(Add(s, start, end), x)
  {
    AddExact(s, start, end);
  }

  /** What a run has covered stays covered however it goes on. */
  lemma {:induction false} RunNeverForgets(ranges: seq<Interval>, n: nat, x: int)
    requires AllProper(ranges) && n <= |ranges| && Covers(Run(ranges[..n]), x)
    ensures Covers(Run(ranges), x)
    decreases |ranges|
  {
    hide Covers, Add;
    if n == |ranges| {
      assert ranges[..n] == ranges;
    } else {
      var m := |ranges| - 1;
      assert ranges[..m][..n] == ranges[..n];
      RunNeverForgets(ranges[..m], n, x);
      RunWellFormed(ranges[..m]);
      AddNeverForgets(Run(ranges[..m]), ranges[m].start, ranges[m].end, x);
    }
  }

  // ---- The dropped bytes, concretely

  /** A full set whose smallest gap is its first one. */
  function FullSet(): (s: seq<Interval>)
    ensures |s| == MAX && WellFormed(s)
  {
    seq(MAX, i requires 0 <= i < MAX => if i == 0 then Interval(8, 8) else Interval(10 * i, 10 * i))
  }

  /** Serving byte 1005 of a file whose coverage is `FullSet()` is not recorded, though the
      re-derived position would record it. */
  lemma ServedByteDropped()
    ensures !Covers(Add(FullSet(), 1005, 1005), 1005)
    ensures Covers(AddRederived(FullSet(), 1005, 1005), 1005)
  {
    hide Add, AddRederived, Covers, SmallestGap, Position;
    var s := FullSet();
    FullSetPosition();
    assert s[0] == Interval(8, 8) && s[1] == Interval(10, 10) && s[100].end == 1000 && s[101].start == 1010;
    BetweenNeighbours(s, 101, 1005);
    AddExact(s, 1005, 1005);
    AddRederivedAtCap(s, 1005, 1005);
  }

  /** A full set coalesces even for a range it holds already: byte 9 was never served. */
  lemma OverlapStillCoalesces()
    ensures Covers(FullSet(), 1000) && !Covers(FullSet(), 9) && Covers(Add(FullSet(), 1000, 1000), 9)
  {
    var s := FullSet();
    assert s[100] == Interval(1000, 1000);
    BetweenNeighbours(s, 1, 9);
    FullSetGaps();
    AddExact(s, 1000, 1000);
    assert InJoinedGap(s, 9);
  }

  // ---- Which sets runs reach, and what a dropped byte costs

  /** On separated intervals the merge pass changes nothing. */
  lemma {:induction false} MergeSeparated(w: Interval, rest: seq<Interval>)
    requires AllProper([w] + rest) && Separated([w] + rest)
    ensures Merge(w, rest) == [w] + rest
    decreases |rest|
  {
    if rest != [] {
      var all := [w] + rest;
      assert all[0] == w && all[1] == rest[0] && w.end + 1 < rest[0].start;
      assert all[1..] == rest == [rest[0]] + rest[1..];
      SeparatedTail(all);
      MergeSeparated(rest[0], rest[1..]);
    }
  }

  lemma SeparatedTail(s: seq<Interval>)
    requires s != [] && AllProper(s) && Separated(s)
    ensures AllProper(s[1..]) && Separated(s[1..])
  {
  }

  /** Adding an interval past the end of a set with room appends it. */
  lemma AddAppends(s: seq<Interval>, iv: Interval)
    requires WellFormed(s + [iv])
    ensures Add(s, iv.start, iv.end) == s + [iv]
  {
    var t, n := s + [iv], |s|;
    assert t[n] == iv && forall i | 0 <= i < n :: t[i] == s[i];
    assert forall i | 0 <= i < n :: s[i].start < iv.start;
    PositionIs(s, iv.start, n);
    assert Insert(s, n, iv) == t;
    assert t == [t[0]] + t[1..];
    MergeSeparated(t[0], t[1..]);
  }

  /** Every well-formed set is reached: by the run that serves its own intervals. */
  lemma {:induction false} EverySetIsReached(s: seq<Interval>)
    requires WellFormed(s)
    ensures Run(s) == s
    decreases |s|
  {
    if s != [] {
      var n := |s| - 1;
      assert s == s[..n] + [s[n]];
      EverySetIsReached(s[..n]);
      AddAppends(s[..n], s[n]);
    }
  }

  /** An interval placed after one that starts no earlier never stays by itself. */
  lemma {:induction false} MergeSwallows(w: Interval, front: seq<Interval>, lead: Interval,
                                          iv: Interval, back: seq<Interval>)
    requires Proper(w) && AllProper(front) && Proper(lead) && iv.start <= lead.start
    ensures |Merge(w, front + [lead, iv] + back)| <= |front| + |back| + 2
    decreases |front|
  {
    var rest := front + [lead, iv] + back;
    if front == [] {
      assert rest[0] == lead && rest[1..] == [iv] + back;
      var tail := [iv] + back;
      assert tail[0] == iv && tail[1..] == back;
      if lead.start <= Succ(w.end) {
        MergeLength(Interval(w.start, Later(w.end, lead.end)), tail);
      } else {
        MergeLength(Interval(lead.start, Later(lead.end, iv.end)), back);
      }
    } else {
      assert rest[0] == front[0] && rest[1..] == front[1..] + [lead, iv] + back;
      MergeSwallows(Interval(w.start, Later(w.end, front[0].end)), front[1..], lead, iv, back);
      MergeSwallows(front[0], front[1..], lead, iv, back);
    }
  }

  /** So a misplaced add leaves room in the set. */
  lemma MisplacedLeavesRoom(s: seq<Interval>, start: u64, end: u64)
    requires WellFormed(s) && |s| == MAX && Proper(Interval(start, end)) && Misplaced(s, start)
    ensures |Add(s, start, end)| < MAX
  {
    var c, pos, iv := Coalesce(s), Position(s, start), Interval(start, end);
    CoalesceCovers(s);
    MisplacedLead(s, SmallestGap(s, MAX - 1), start);
    InsertSwallows(c, pos, iv);
  }

  lemma InsertSwallows(c: seq<Interval>, pos: nat, iv: Interval)
    requires AllProper(c) && 1 < pos <= |c| && iv.start <= c[pos - 1].start
    ensures |MergeAll(Insert(c, pos, iv))| <= |c|
  {
    var front := c[1..pos - 1];
    assert Insert(c, pos, iv)[1..] == front + [c[pos - 1], iv] + c[pos..];
    MergeSwallows(c[0], front, c[pos - 1], iv, c[pos..]);
  }

  const FILE_SIZE: u64 := 4096

  /** Serving the intervals of `FullSet()`, then byte 1005, then all before it and all after it. */
  function WholeFile(): seq<Interval> {
    FullSet() + [Interval(1005, 1005)] + [Interval(0, 1004)] + [Interval(1006, FILE_SIZE - 1)]
  }

  /** Of the file's bytes the set covers all but one. */
  ghost predicate AllBut(s: seq<Interval>, missing: int) {
    forall x | 0 <= x < FILE_SIZE :: Covers(s, x) <==> x != missing
  }

  /** Every byte of the file has been served and the set says otherwise: byte 1005 is missing from it, it is
      not complete, and the job holds the next install back until it stalls. */
  lemma WholeFileServedNotComplete(idleSeconds: real)
    requires idleSeconds < 300.0
    ensures AllProper(WholeFile()) && Within(WholeFile(), FILE_SIZE)
    ensures forall x | 0 <= x < FILE_SIZE :: Covers(WholeFile(), x)
    ensures AllBut(Run(WholeFile()), 1005)
    ensures !IsComplete(Run(WholeFile()), FILE_SIZE)
    ensures !Admits(true, Released(BytesOf(Run(WholeFile())) % U64, FILE_SIZE, idleSeconds))
  {
    hide Add, Run, FullSet, WholeFile;
    var c := WholeFile();
    WholeFileCovers();
    WholeFileRun();
    RunWithin(c, FILE_SIZE);
    WholeFileAllBut();
    CompleteCovers(Run(c), FILE_SIZE, 1005);
    AdmittedIffComplete(Run(c), FILE_SIZE, idleSeconds);
  }

  lemma CompleteCovers(s: seq<Interval>, total: u64, x: int)
    requires 0 <= x < total
    ensures IsComplete(s, total) ==> Covers(s, x)
  {
    if IsComplete(s, total) {
      assert s[0].start <= x <= s[0].end;
    }
  }

  /** The run of `WholeFile()`, step by step. */
  lemma WholeFileRun()
    ensures var s1 := Add(FullSet(), 1005, 1005);
            && |s1| <= MAX && |Add(s1, 0, 1004)| <= MAX
            && Run(WholeFile()) == Add(Add(s1, 0, 1004), 1006, FILE_SIZE - 1)
  {
    hide Add, FullSet;
    var s := FullSet();
    EverySetIsReached(s);
    RunLast(s, Interval(1005, 1005));
    RunLast(s + [Interval(1005, 1005)], Interval(0, 1004));
    RunLast(s + [Interval(1005, 1005)] + [Interval(0, 1004)], Interval(1006, FILE_SIZE - 1));
  }

  lemma WholeFileAllBut()
    ensures AllBut(Run(WholeFile()), 1005)
  {
    hide Add, Run, WholeFile;
    var s := FullSet();
    var s1 := Add(s, 1005, 1005);
    WholeFileRun();
    FullSetPosition();
    MisplacedLeavesRoom(s, 1005, 1005);
    ServedByteDropped();
    AddExact(s, 1005, 1005);
    assert Covers(s, 8) by { assert s[0] == Interval(8, 8); }
    LastTwoRanges(s1);
  }

  /** The last two ranges add what they say, for a set with room that misses byte 1005 and has byte 8. */
  lemma LastTwoRanges(s1: seq<Interval>)
    requires WellFormed(s1) && |s1| < MAX && !Covers(s1, 1005) && Covers(s1, 8)
    ensures var s2 := Add(s1, 0, 1004);
            |s2| <= MAX && AllBut(Add(s2, 1006, FILE_SIZE - 1), 1005)
  {
    hide Add, Covers;
    AddIsUnionBelowCap(s1, 0, 1004);
    FirstAddNoLonger(s1, 1004, 8);
    AddIsUnionBelowCap(Add(s1, 0, 1004), 1006, FILE_SIZE - 1);
  }

  /** In a run in which the set is never full when a range comes, exactly the served bytes are covered. */
  lemma {:induction false} NeverFullIsExact(ranges: seq<Interval>)
    requires AllProper(ranges) && forall n | 0 <= n < |ranges| :: |Run(ranges[..n])| < 256
    ensures forall x :: Covers(Run(ranges), x) <==> Covers(ranges, x)
    decreases |ranges|
  {
    hide Covers, Add;
    if ranges == [] {
      NothingCovered();
    } else {
      var m := |ranges| - 1;
      var front, last := ranges[..m], ranges[m];
      forall n | 0 <= n < m ensures |Run(front[..n])| < MAX {
        assert front[..n] == ranges[..n];
      }
      NeverFullIsExact(front);
      RunWellFormed(front);
      AddIsUnionBelowCap(Run(front), last.start, last.end);
      CoversLast(front, last);
      assert ranges == front + [last];
    }
  }

  lemma NothingCovered()
    ensures forall x :: !Covers([], x)
  {
  }

  lemma CoversLast(s: seq<Interval>, iv: Interval)
    ensures forall x :: Covers(s + [iv], x) <==> Covers(s, x) || iv.start <= x <= iv.end
  {
    CoversConcat(s, [iv]);
    assert forall x :: Covers([iv], x) <==> iv.start <= x <= iv.end by {
      assert [iv][0] == iv;
    }
  }

  /** Serving the intervals of `FullSet()`, byte 1000 again, and then all but byte 9. */
  function AllButNine(): seq<Interval> {
    FullSet() + [Interval(1000, 1000)] + [Interval(0, 8)] + [Interval(10, FILE_SIZE - 1)]
  }

  /** Byte 9 of the file is never served, and the set says all were: it is complete, and the job is released. */
  lemma CompleteThoughNotServed(idleSeconds: real)
    requires idleSeconds < 300.0
    ensures AllProper(AllButNine()) && Within(AllButNine(), FILE_SIZE) && !Covers(AllButNine(), 9)
    ensures IsComplete(Run(AllButNine()), FILE_SIZE)
    ensures Admits(true, Released(BytesOf(Run(AllButNine())) % U64, FILE_SIZE, idleSeconds))
  {
    hide Add, Run, FullSet, AllButNine, Covers;
    var c := AllButNine();
    NineNotServed();
    RunWithin(c, FILE_SIZE);
    NineCovered();
    CoversAllIsComplete(Run(c), FILE_SIZE);
    AdmittedIffComplete(Run(c), FILE_SIZE, idleSeconds);
  }

  lemma NineNotServed()
    ensures AllProper(AllButNine()) && Within(AllButNine(), FILE_SIZE) && !Covers(AllButNine(), 9)
  {
    var c := AllButNine();
    assert c[MAX] == Interval(1000, 1000) && c[MAX + 1] == Interval(0, 8);
    assert c[MAX + 2] == Interval(10, FILE_SIZE - 1);
    forall i | 0 <= i < MAX ensures c[i] == FullSet()[i] {}
  }

  /** A set inside the file that covers all of it is one whole interval. */
  lemma CoversAllIsComplete(s: seq<Interval>, total: u64)
    requires WellFormed(s) && Within(s, total) && total > 0 && forall x | 0 <= x < total :: Covers(s, x)
    ensures IsComplete(s, total)
  {
    assert Covers(s, 0) && Covers(s, total - 1);
    if |s| > 1 {
      assert s[0].end + 1 < s[1].start && s[1].end < total;
      BetweenNeighbours(s, 1, s[0].end + 1);
    }
  }

  lemma NineCovered()
    ensures forall x | 0 <= x < FILE_SIZE :: Covers(Run(AllButNine()), x)
  {
    hide Add, Run;
    var s := FullSet();
    var s1 := Add(s, 1000, 1000);
    NineRun();
    FullSetGaps();
    PositionOfThousand();
    MisplacedLeavesRoom(s, 1000, 1000);
    AddExact(s, 1000, 1000);
    OverlapStillCoalesces();
    assert Covers(s, 8) by { assert s[0] == Interval(8, 8); }
    LastTwoOfNine(s1);
  }

  lemma PositionOfThousand()
    ensures Position(FullSet(), 1000) == 100
  {
    hide Position;
    var s := FullSet();
    forall i | 0 <= i < 100 ensures s[i].start < 1000 {}
    PositionIs(s, 1000, 100);
  }

  lemma NineRun()
    ensures var s1 := Add(FullSet(), 1000, 1000);
            && |s1| <= MAX && |Add(s1, 0, 8)| <= MAX
            && Run(AllButNine()) == Add(Add(s1, 0, 8), 10, FILE_SIZE - 1)
  {
    hide Add, FullSet;
    var s := FullSet();
    EverySetIsReached(s);
    RunLast(s, Interval(1000, 1000));
    RunLast(s + [Interval(1000, 1000)], Interval(0, 8));
    RunLast(s + [Interval(1000, 1000)] + [Interval(0, 8)], Interval(10, FILE_SIZE - 1));
  }

  lemma LastTwoOfNine(s1: seq<Interval>)
    requires WellFormed(s1) && |s1| < MAX && Covers(s1, 8) && Covers(s1, 9)
    ensures var s2 := Add(s1, 0, 8);
            |s2| <= MAX && CoversFile(Add(s2, 10, FILE_SIZE - 1))
  {
    hide Add, Covers;
    AddIsUnionBelowCap(s1, 0, 8);
    FirstAddNoLonger(s1, 8, 8);
    AddIsUnionBelowCap(Add(s1, 0, 8), 10, FILE_SIZE - 1);
  }

  ghost predicate CoversFile(s: seq<Interval>) {
    forall x | 0 <= x < FILE_SIZE :: Covers(s, x)
  }

  lemma WholeFileCovers()
    ensures AllProper(WholeFile()) && Within(WholeFile(), FILE_SIZE)
    ensures forall x | 0 <= x < FILE_SIZE :: Covers(WholeFile(), x)
  {
    var c := WholeFile();
    assert c[MAX] == Interval(1005, 1005) && c[MAX + 1] == Interval(0, 1004);
    assert c[MAX + 2] == Interval(1006, FILE_SIZE - 1);
    forall i | 0 <= i < MAX ensures c[i] == FullSet()[i] {}
  }

  lemma RunLast(ranges: seq<Interval>, iv: Interval)
    ensures Run(ranges + [iv]) == Add(Run(ranges), iv.start, iv.end)
  {
    assert (ranges + [iv])[..|ranges|] == ranges;
  }

  /** A range from the file's first byte that reaches a covered byte makes the set no longer. */
  lemma FirstAddNoLonger(s: seq<Interval>, end: u64, x: int)
    requires WellFormed(s) && |s| < MAX && Covers(s, x) && x <= end < U64 - 1
    ensures |Add(s, 0, end)| <= |s|
  {
    var i :| 0 <= i < |s| && s[i].start <= x <= s[i].end;
    assert i > 0 ==> s[0].end + 1 < s[i].start;
    MergeFront(s, Interval(0, end));
    assert Position(s, 0) == 0;
  }

  lemma MergeFront(s: seq<Interval>, iv: Interval)
    requires s != [] && iv.end < U64 - 1 && s[0].start <= iv.end + 1
    ensures |MergeAll(Insert(s, 0, iv))| <= |s|
  {
    var t := Insert(s, 0, iv);
    assert t == [iv] + s && t[1..] == s;
    MergeLength(Interval(iv.start, Later(iv.end, s[0].end)), s[1..]);
  }

  lemma FullSetPosition()
    ensures SmallestGap(FullSet(), MAX - 1) == 0 && Position(FullSet(), 1005) == 101
  {
    FullSetGaps();
    FullSetStarts();
  }

  lemma FullSetGaps()
    ensures SmallestGap(FullSet(), MAX - 1) == 0
  {
    var s := FullSet();
    assert Gap(s, 0) == 1;
    forall i | 0 < i < MAX - 1 ensures Gap(s, i) == 9 {}
  }

  lemma FullSetStarts()
    ensures Position(FullSet(), 1005) == 101
  {
    hide Position;
    var s := FullSet();
    forall i | 0 <= i < 101 ensures s[i].start < 1005 {}
    PositionIs(s, 1005, 101);
  }

  /** The merge test, in 64 bits, is right if and only if the end is not the last u64, or the start is 0. */
  lemma MergeTestRightIff(w: Interval, next: Interval)
    ensures (next.start <= Succ(w.end) <==> next.start <= w.end + 1) <==> w.end < U64 - 1 || next.start == 0
  {
  }

  /** Ends at the last u64 are outside the promise: the merge test then wraps and an overlap stays. */
  lemma LastU64Overlaps()
    ensures Add([Interval(5, U64 - 1)], 10, 20) == [Interval(5, U64 - 1), Interval(10, 20)]
    ensures !Separated(Add([Interval(5, U64 - 1)], 10, 20))
  {
    var s := [Interval(5, U64 - 1)];
    assert Position(s, 10) == 1;
    assert Insert(s, 1, Interval(10, 20)) == [Interval(5, U64 - 1), Interval(10, 20)];
    assert Merge(Interval(10, 20), []) == [Interval(10, 20)];
    assert Succ(U64 - 1) == 0;
    var r := Add(s, 10, 20);
    assert r == [Interval(5, U64 - 1), Interval(10, 20)];
    assert r[0].end + 1 >= r[1].start;
  }

  // ---- The in-place code

  class CoverageSet {
    const iv: array<Interval>
    var count: nat

    ghost predicate Valid()
      reads this
    {
      iv.Length == MAX && count <= MAX
    }

    ghost function Contents(): seq<Interval>
      requires Valid()
      reads this, iv
    {
      iv[..count]
    }

    constructor ()
      ensures Valid() && fresh(iv) && Contents() == []
    {
      iv := new Interval[MAX](_ => Interval(0, 0));
      count := 0;
    }

    /** `inst_coverage_reset` */
    method Reset()
      requires Valid()
      modifies this
      ensures Valid() && Contents() == []
    {
      count := 0;
    }

    /** The scan for the smallest gap. */
    method FindSmallestGap() returns (best: nat)
      requires Valid() && count > 1
      ensures best == SmallestGap(Contents(), count - 1)
    {
      ghost var s := Contents();
      best := 0;
      var bestGap := U64 - 1;
      var i := 0;
      while i + 1 < count
        invariant 0 <= i < count == |s| && s == iv[..count]
        invariant i == 0 ==> best == 0 && bestGap == U64 - 1
        invariant i > 0 ==> best == SmallestGap(s, i) && bestGap == Gap(s, best)
        decreases count - i
      {
        var gap := (iv[i + 1].start - iv[i].end - 1) % U64;
        assert gap == Gap(s, i);
        if gap < bestGap {
          bestGap, best := gap, i;
        }
        i := i + 1;
      }
    }

    /** `coverage_coalesce_smallest_gap` */
    method CoalesceSmallestGap()
      requires Valid() && count > 1
      modifies this, iv
      ensures Valid() && Contents() == Coalesce(old(Contents()))
    {
      var best := FindSmallestGap();
      JoinAt(best);
    }

    method JoinAt(best: nat)
      requires Valid() && best + 1 < count
      modifies this, iv
      ensures Valid() && Contents() == Join(old(Contents()), best)
    {
      hide Join;
      ghost var s, joined := Contents(), Join(Contents(), best);
      JoinAtEach(s, best);
      if iv[best + 1].end > iv[best].end {
        iv[best] := Interval(iv[best].start, iv[best + 1].end);
      }
      var i := best + 1;
      while i + 1 < count
        invariant best < i < count == |s|
        invariant forall k | 0 <= k < i :: iv[k] == joined[k]
        invariant forall k | i <= k < count :: iv[k] == s[k]
        decreases count - i
      {
        assert joined[i] == s[i + 1];
        iv[i] := iv[i + 1];
        i := i + 1;
      }
      count := count - 1;
    }

    /** Shifts the tail right and writes the new interval at `pos`. */
    method InsertAt(pos: nat, start: u64, end: u64)
      requires Valid() && pos <= count < MAX
      modifies this, iv
      ensures Valid() && Contents() == Insert(old(Contents()), pos, Interval(start, end))
    {
      ghost var s := Contents();
      var i := count;
      while i > pos
        invariant pos <= i <= count == |s| < MAX
        invariant forall k | 0 <= k < i :: iv[k] == s[k]
        invariant forall k | i < k <= count :: iv[k] == s[k - 1]
      {
        iv[i] := iv[i - 1];
        i := i - 1;
      }
      iv[pos] := Interval(start, end);
      count := count + 1;
      assert iv[..count] == Insert(s, pos, Interval(start, end));
    }

    /** The forward pass, reading at `r` and writing at `w` of the same array. */
    method MergePass()
      requires Valid() && count > 0
      modifies this, iv
      ensures Valid() && Contents() == MergeAll(old(Contents()))
    {
      hide Merge;
      ghost var s := Contents();
      var w, r := 0, 1;
      ghost var done: seq<Interval> := [];
      while r < count
        invariant w < r <= count == |s|
        invariant |done| == w && forall k | 0 <= k < w :: iv[k] == done[k]
        invariant forall k | r <= k < count :: iv[k] == s[k]
        invariant done + Merge(iv[w], s[r..]) == MergeAll(s)
      {
        MergeStep(done, iv[w], s, r);
        if iv[r].start <= Succ(iv[w].end) {
          if iv[r].end > iv[w].end {
            iv[w] := Interval(iv[w].start, iv[r].end);
          }
        } else {
          done := done + [iv[w]];
          w := w + 1;
          iv[w] := iv[r];
        }
        r := r + 1;
      }
      count := w + 1;
      MergeEnd(iv[w], s);
      assert iv[..count] == done + [iv[w]];
    }

    /** `inst_coverage_add` */
    method AddRange(start: u64, end: u64)
      requires Valid()
      modifies this, iv
      ensures Valid() && Contents() == Add(old(Contents()), start, end)
    {
      if end < start {
        return;
      }
      ghost var s := Contents();
      var pos := 0;
      while pos < count && iv[pos].start < start
        invariant pos <= count
        invariant forall k | 0 <= k < pos :: s[k].start < start
      {
        pos := pos + 1;
      }
      PositionIs(s, start, pos);
      if count >= MAX {
        CoalesceSmallestGap();
        if pos > count {
          pos := count;
        }
      }
      InsertAt(pos, start, end);
      MergePass();
      assert |Contents()| <= MAX;
    }

    /** `inst_coverage_bytes` */
    method Bytes() returns (sum: u64)
      requires Valid()
      ensures sum == BytesOf(Contents()) % U64
    {
      sum := 0;
      var i := 0;
      while i < count
        invariant i <= count
        invariant sum == BytesOf(iv[..i]) % U64
      {
        assert iv[..i + 1][..i] == iv[..i];
        sum := (sum + iv[i].end - iv[i].start + 1) % U64;
        i := i + 1;
      }
    }

    /** `inst_coverage_complete` */
    method Complete(total: u64) returns (complete: bool)
      requires Valid()
      ensures complete <==> IsComplete(Contents(), total)
    {
      if total == 0 {
        return true;
      }
      complete := count == 1 && iv[0].start == 0 && iv[0].end == total - 1;
    }
  }

  lemma MergeEnd(w: Interval, s: seq<Interval>)
    ensures Merge(w, s[|s|..]) == [w]
  {
  }

  lemma MergeStep(done: seq<Interval>, w: Interval, s: seq<Interval>, r: nat)
    requires r < |s|
    ensures s[r].start <= Succ(w.end) ==>
              done + Merge(w, s[r..]) == done + Merge(Interval(w.start, Later(w.end, s[r].end)), s[r + 1..])
    ensures s[r].start > Succ(w.end) ==>
              done + Merge(w, s[r..]) == done + [w] + Merge(s[r], s[r + 1..])
  {
    assert s[r..][0] == s[r] && s[r..][1..] == s[r + 1..];
  }

  /** The number of bytes counted, before reduction to 64 bits. */
  function BytesOf(s: seq<Interval>): int {
    if s == [] then 0
    else
      var n := |s| - 1;
      BytesOf(s[..n]) + (s[n].end - s[n].start + 1)
  }

  predicate IsComplete(s: seq<Interval>, total: u64) {
    total == 0 || (|s| == 1 && s[0].start == 0 && s[0].end == total - 1)
  }

  // ---- Byte count and completeness for a file of `total` bytes

  ghost predicate Within(s: seq<Interval>, total: int) {
    forall i | 0 <= i < |s| :: s[i].end < total
  }

  /** Separated intervals leave at least one byte between them, which the count must miss. */
  lemma {:induction false} BytesBound(s: seq<Interval>)
    requires s != [] && AllProper(s) && Separated(s)
    ensures BytesOf(s) + |s| - 1 <= s[|s| - 1].end - s[0].start + 1
    ensures |s| == 1 ==> BytesOf(s) == s[0].end - s[0].start + 1
    ensures BytesOf(s) > 0
    decreases |s|
  {
    var n := |s| - 1;
    if n > 0 {
      BytesBound(s[..n]);
      assert s[n - 1].end + 1 < s[n].start;
    }
  }

  /** The byte sum never exceeds the file, and reaches it exactly when the set is one whole
      interval: the byte-count rule and the complete flag agree, and the 64-bit sum never wraps. */
  lemma BytesReachTotalIff(s: seq<Interval>, total: u64)
    requires WellFormed(s) && Within(s, total) && total > 0
    ensures 0 <= BytesOf(s) <= total
    ensures BytesOf(s) == total <==> IsComplete(s, total)
  {
    if s != [] {
      BytesBound(s);
    }
  }

  /** Adding a range of the file leaves every stored interval inside the file, gap fill included. */
  lemma AddWithin(s: seq<Interval>, start: u64, end: u64, total: u64)
    requires WellFormed(s) && Within(s, total) && start <= end < total
    ensures Within(Add(s, start, end), total)
  {
    AddExact(s, start, end);
    var r := Add(s, start, end);
    forall i | 0 <= i < |r| ensures r[i].end < total {
      assert Covers(r, r[i].end);
      assert Covers(s, r[i].end) ==> r[i].end < total;
      if |s| == MAX {
        var best := SmallestGap(s, MAX - 1);
        assert s[best + 1].start <= s[best + 1].end < total;
      }
    }
  }

  /** Over any run of ranges of the file, the two ways of asking "is it all served" agree. */
  lemma {:induction false} RunWithin(ranges: seq<Interval>, total: u64)
    requires forall i | 0 <= i < |ranges| :: ranges[i].start <= ranges[i].end < total
    ensures WellFormed(Run(ranges)) && Within(Run(ranges), total)
    ensures total > 0 ==> 0 <= BytesOf(Run(ranges)) <= total
    ensures total > 0 ==> (BytesOf(Run(ranges)) == total <==> IsComplete(Run(ranges), total))
    decreases |ranges|
  {
    RunWellFormed(ranges);
    if ranges != [] {
      var n := |ranges| - 1;
      RunWithin(ranges[..n], total);
      AddWithin(Run(ranges[..n]), ranges[n].start, ranges[n].end, total);
    }
    if total > 0 {
      BytesReachTotalIff(Run(ranges), total);
    }
  }

  /** `inst_job_released`: read in full, or idle for 300 s. */
  predicate Released(bytesServed: u64, total: u64, idleSeconds: real) {
    total == 0 || bytesServed >= total || idleSeconds >= 300.0
  }

  /** `inst_admit_install` for the active job. */
  predicate Admits(serving: bool, complete: bool) {
    !(serving && !complete)
  }

  /** For a job that is not stalled, the daemon admits the next install exactly when every byte of
      the file has been served, as far as the coverage set reports. */
  lemma AdmittedIffComplete(s: seq<Interval>, total: u64, idleSeconds: real)
    requires WellFormed(s) && Within(s, total) && idleSeconds < 300.0
    ensures Admits(true, Released(BytesOf(s) % U64, total, idleSeconds)) <==> IsComplete(s, total)
  {
    if total > 0 {
      BytesReachTotalIff(s, total);
    }
  }

  /** Complete means every byte of the file, an empty file included. */
  lemma CompleteIff(s: seq<Interval>, total: u64)
    requires WellFormed(s) && Within(s, total)
    ensures IsComplete(s, total) <==> forall x | 0 <= x < total :: Covers(s, x)
  {
    if total > 0 && IsComplete(s, total) {
      forall x | 0 <= x < total ensures Covers(s, x) {
        CompleteCovers(s, total, x);
      }
    }
    if total > 0 && forall x | 0 <= x < total :: Covers(s, x) {
      CoversAllIsComplete(s, total);
    }
  }

  ghost function Ints(lo: int, hi: int): (r: set<int>)
    requires lo <= hi
    ensures |r| == hi - lo && forall x :: x in r <==> lo <= x < hi
    decreases hi - lo
  {
    if lo == hi then {} else Ints(lo, hi - 1) + {hi - 1}
  }

  ghost function CoveredBelow(s: seq<Interval>, total: int): set<int> {
    set x | 0 <= x < total && Covers(s, x)
  }

  /** The count is the number of bytes covered, each once. */
  lemma {:induction false} BytesAreCovered(s: seq<Interval>, total: int)
    requires AllProper(s) && Separated(s) && Within(s, total)
    ensures BytesOf(s) == |CoveredBelow(s, total)|
    decreases |s|
  {
    if s == [] {
      assert CoveredBelow(s, total) == {};
    } else {
      var front := s[..|s| - 1];
      FrontIsProper(s, total);
      BytesAreCovered(front, total);
      CoveredWithLast(s, total);
    }
  }

  lemma FrontIsProper(s: seq<Interval>, total: int)
    requires AllProper(s) && Separated(s) && Within(s, total) && s != []
    ensures var front := s[..|s| - 1]; AllProper(front) && Separated(front) && Within(front, total)
  {
    var front := s[..|s| - 1];
    assert forall i | 0 <= i < |front| :: front[i] == s[i];
  }

  lemma CoveredWithLast(s: seq<Interval>, total: int)
    requires AllProper(s) && Separated(s) && Within(s, total) && s != []
    ensures var n := |s| - 1;
            |CoveredBelow(s, total)| == |CoveredBelow(s[..n], total)| + (s[n].end - s[n].start + 1)
  {
    var n := |s| - 1;
    var front := s[..n];
    var last := Ints(s[n].start, s[n].end + 1);
    assert s == front + [s[n]];
    CoversLast(front, s[n]);
    forall x | Covers(front, x) ensures x < s[n].start {
      var i :| 0 <= i < |front| && front[i].start <= x <= front[i].end;
      EndsBefore(s, i, n);
    }
    assert CoveredBelow(s, total) == CoveredBelow(front, total) + last;
    assert CoveredBelow(front, total) !! last;
  }

  lemma EndsBefore(s: seq<Interval>, i: nat, j: nat)
    requires AllProper(s) && Separated(s) && i < j < |s|
    ensures s[i].end < s[j].start
  {
  }

  /** When the next install is let in, in terms of the bytes alone: no job is serving, or all of its file
      has been covered, or it has been idle for five minutes. */
  lemma AdmitsIff(s: seq<Interval>, total: u64, serving: bool, idleSeconds: real)
    requires WellFormed(s) && Within(s, total)
    ensures Admits(serving, Released(BytesOf(s) % U64, total, idleSeconds)) <==>
              || !serving
              || idleSeconds >= 300.0
              || forall x | 0 <= x < total :: Covers(s, x)
  {
    CompleteIff(s, total);
    if total > 0 {
      BytesReachTotalIff(s, total);
    }
  }
}
