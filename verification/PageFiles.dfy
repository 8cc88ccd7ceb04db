/** The source files of a guest page (pageFiles in client/vite.pageCss.ts): a worklist walk over relative
    imports. File names are sequences of UTF-16 code units; what the disk holds is a map from a readable
    file to its imports, resolved, in the order they stand in its text. */
module PageFiles {
  import opened Wrappers

  type File = seq<nat>

  type Disk = map<File, seq<File>>

  // ---- Reachability

  /** `b` is one import away from `a`: resolved, then swapped, and a source file. */
  ghost predicate Edge(disk: Disk, swap: File -> File, isSource: File -> bool, a: File, b: File) {
    a in disk && isSource(b) && exists n | n in disk[a] :: swap(n) == b
  }

  /** `p` leads from the page's entry along imports. */
  ghost predicate Path(disk: Disk, swap: File -> File, isSource: File -> bool, entry: File, p: seq<File>) {
    && p != [] && p[0] == swap(entry) && isSource(p[0])
    && forall i {:trigger p[i]} | 0 < i < |p| :: Edge(disk, swap, isSource, p[i - 1], p[i])
  }

  ghost predicate Reached(disk: Disk, swap: File -> File, isSource: File -> bool, entry: File, f: File) {
    exists p :: Path(disk, swap, isSource, entry, p) && p[|p| - 1] == f
  }

  lemma ReachEntry(disk: Disk, swap: File -> File, isSource: File -> bool, entry: File)
    requires isSource(swap(entry))
    ensures Reached(disk, swap, isSource, entry, swap(entry))
  {
    assert Path(disk, swap, isSource, entry, [swap(entry)]);
  }

  lemma ReachNext(disk: Disk, swap: File -> File, isSource: File -> bool, entry: File, a: File, n: File)
    requires Reached(disk, swap, isSource, entry, a) && a in disk && n in disk[a] && isSource(swap(n))
    ensures Reached(disk, swap, isSource, entry, swap(n))
  {
    var p :| Path(disk, swap, isSource, entry, p) && p[|p| - 1] == a;
    var q := p + [swap(n)];
    assert Edge(disk, swap, isSource, a, swap(n));
    forall i | 0 < i < |q| ensures Edge(disk, swap, isSource, q[i - 1], q[i]) {
      if i < |p| {
        assert q[i - 1] == p[i - 1] && q[i] == p[i];
      }
    }
    assert Path(disk, swap, isSource, entry, q) && q[|q| - 1] == swap(n);
  }

  /** What is queued or seen covers what leads on from it. */
  ghost predicate Accounted(swap: File -> File, isSource: File -> bool, seen: set<File>, todo: seq<File>, n: File) {
    swap(n) in seen || !isSource(swap(n)) || n in todo
  }

  ghost predicate Closed(disk: Disk, swap: File -> File, isSource: File -> bool, entry: File,
                         seen: set<File>, todo: seq<File>)
  {
    && Accounted(swap, isSource, seen, todo, entry)
    && forall f, n | f in seen && f in disk && n in disk[f] :: Accounted(swap, isSource, seen, todo, n)
  }

  /** With nothing queued, everything at the end of a path has been seen. */
  lemma {:induction false} ClosedHasAll(disk: Disk, swap: File -> File, isSource: File -> bool, entry: File,
                                        seen: set<File>, p: seq<File>)
    requires Closed(disk, swap, isSource, entry, seen, []) && Path(disk, swap, isSource, entry, p)
    ensures p[|p| - 1] in seen
    decreases |p|
  {
    var k := |p| - 1;
    if k == 0 {
      assert Accounted(swap, isSource, seen, [], entry);
    } else {
      assert Path(disk, swap, isSource, entry, p[..k]);
      ClosedHasAll(disk, swap, isSource, entry, seen, p[..k]);
      assert Edge(disk, swap, isSource, p[k - 1], p[k]);
      var n :| n in disk[p[k - 1]] && swap(n) == p[k];
      assert Accounted(swap, isSource, seen, [], n);
    }
  }

  // ---- Sorting

  /** Code-unit order, as Array.prototype.sort compares strings. */
  predicate Less(a: File, b: File)
    decreases |a|
  {
    b != [] && (a == [] || a[0] < b[0] || (a[0] == b[0] && Less(a[1..], b[1..])))
  }

  lemma {:induction false} LessTotal(a: File, b: File)
    ensures a == b || Less(a, b) || Less(b, a)
    decreases |a|
  {
    if a != [] && b != [] && a[0] == b[0] {
      LessTotal(a[1..], b[1..]);
      assert a == [a[0]] + a[1..] && b == [b[0]] + b[1..];
    }
  }

  lemma {:induction false} LessTransitive(a: File, b: File, c: File)
    requires Less(a, b) && Less(b, c)
    ensures Less(a, c)
    decreases |a|
  {
    if a != [] && a[0] == b[0] == c[0] {
      LessTransitive(a[1..], b[1..], c[1..]);
    }
  }

  /** At the first place where they differ, the smaller unit comes first; the end of a path before any unit. */
  ghost predicate DiffersAt(a: File, b: File, k: nat) {
    && k <= |a| && k < |b|
    && (forall i | 0 <= i < k :: a[i] == b[i])
    && (k < |a| ==> a[k] < b[k])
  }

  lemma {:induction false} LessIff(a: File, b: File)
    ensures Less(a, b) <==> exists k: nat :: DiffersAt(a, b, k)
    decreases |a|
  {
    if a == [] || b == [] || a[0] < b[0] {
      assert b != [] ==> DiffersAt(a, b, 0);
    } else if a[0] == b[0] {
      LessIff(a[1..], b[1..]);
      if Less(a[1..], b[1..]) {
        var k: nat :| DiffersAt(a[1..], b[1..], k);
        assert forall i | 0 < i < |a| :: a[i] == a[1..][i - 1];
        assert forall i | 0 < i < |b| :: b[i] == b[1..][i - 1];
        assert DiffersAt(a, b, k + 1);
      }
      if k: nat :| DiffersAt(a, b, k) {
        assert DiffersAt(a[1..], b[1..], k - 1);
      }
    }
  }

  ghost predicate Sorted(s: seq<File>) {
    forall i, j | 0 <= i < j < |s| :: Less(s[i], s[j])
  }

  function Elements(s: seq<File>): set<File> {
    set f | f in s
  }

  function Insert(s: seq<File>, f: File): seq<File> {
    if s == [] then [f] else if Less(f, s[0]) then [f] + s else [s[0]] + Insert(s[1..], f)
  }

  lemma {:induction false} InsertSorts(s: seq<File>, f: File)
    requires Sorted(s) && f !in s
    ensures Sorted(Insert(s, f)) && forall x :: x in Insert(s, f) <==> x == f || x in s
    decreases |s|
  {
    if s != [] {
      assert s == [s[0]] + s[1..];
      if Less(f, s[0]) {
        forall j | 0 < j < |s| ensures Less(f, s[j]) {
          LessTransitive(f, s[0], s[j]);
        }
      } else {
        LessTotal(f, s[0]);
        InsertSorts(s[1..], f);
        var r := Insert(s[1..], f);
        forall j | 0 <= j < |r| ensures Less(s[0], r[j]) {
          assert r[j] in r;
          assert r[j] == f || r[j] in s[1..];
        }
      }
    }
  }

  /** `[...seen].sort()` */
  method SortFiles(seen: set<File>) returns (s: seq<File>)
    ensures Sorted(s) && Elements(s) == seen
  {
    s := [];
    var left := seen;
    while left != {}
      invariant left <= seen && Sorted(s) && Elements(s) == seen - left
      decreases |left|
    {
      var f :| f in left;
      assert f !in s by {
        assert f !in Elements(s);
      }
      InsertSorts(s, f);
      assert Elements(Insert(s, f)) == Elements(s) + {f};
      s := Insert(s, f);
      left := left - {f};
    }
  }

  // ---- The walk

  /** What the loop keeps: the files seen are reached and readable, those queued lead to reached ones, and
      together they account for every import of what was seen. */
  ghost predicate Walking(disk: Disk, swap: File -> File, isSource: File -> bool, entry: File,
                          seen: set<File>, todo: seq<File>)
  {
    && seen <= disk.Keys
    && (forall f | f in seen :: Reached(disk, swap, isSource, entry, f))
    && (forall n | n in todo && isSource(swap(n)) :: Reached(disk, swap, isSource, entry, swap(n)))
    && Closed(disk, swap, isSource, entry, seen, todo)
  }

  lemma WalkStart(disk: Disk, swap: File -> File, isSource: File -> bool, entry: File)
    ensures Walking(disk, swap, isSource, entry, {}, [entry])
  {
    if isSource(swap(entry)) {
      ReachEntry(disk, swap, isSource, entry);
    }
  }

  lemma WalkSkip(disk: Disk, swap: File -> File, isSource: File -> bool, entry: File, seen: set<File>, todo: seq<File>)
    requires Walking(disk, swap, isSource, entry, seen, todo) && todo != []
    requires var file := swap(todo[|todo| - 1]); file in seen || !isSource(file)
    ensures Walking(disk, swap, isSource, entry, seen, todo[..|todo| - 1])
  {
    Popped(todo);
    forall f, n | f in seen && f in disk && n in disk[f]
      ensures Accounted(swap, isSource, seen, todo[..|todo| - 1], n)
    {
      assert Accounted(swap, isSource, seen, todo, n);
    }
  }

  lemma WalkVisit(disk: Disk, swap: File -> File, isSource: File -> bool, entry: File, seen: set<File>, todo: seq<File>)
    requires Walking(disk, swap, isSource, entry, seen, todo) && todo != []
    requires var file := swap(todo[|todo| - 1]); isSource(file) && file in disk
    ensures var file := swap(todo[|todo| - 1]);
            Walking(disk, swap, isSource, entry, seen + {file}, todo[..|todo| - 1] + disk[file])
  {
    var file := swap(todo[|todo| - 1]);
    Popped(todo);
    var seen', todo' := seen + {file}, todo[..|todo| - 1] + disk[file];
    forall f, n | f in seen' && f in disk && n in disk[f] ensures Accounted(swap, isSource, seen', todo', n) {
      assert f in seen ==> Accounted(swap, isSource, seen, todo, n);
    }
    forall n | n in disk[file] && isSource(swap(n)) ensures Reached(disk, swap, isSource, entry, swap(n)) {
      ReachNext(disk, swap, isSource, entry, file, n);
    }
  }

  lemma WalkDone(disk: Disk, swap: File -> File, isSource: File -> bool, entry: File, seen: set<File>)
    requires Walking(disk, swap, isSource, entry, seen, [])
    ensures forall f :: f in seen <==> Reached(disk, swap, isSource, entry, f)
  {
    forall f | Reached(disk, swap, isSource, entry, f) ensures f in seen {
      var p :| Path(disk, swap, isSource, entry, p) && p[|p| - 1] == f;
      ClosedHasAll(disk, swap, isSource, entry, seen, p);
    }
  }

  /** `pageFiles`: for any import graph, cycles included, exactly the source files reached from the entry,
      in sorted order; None when one of them cannot be read, which is when `readFileSync` throws. */
  method Walk(disk: Disk, swap: File -> File, isSource: File -> bool, entry: File) returns (files: Option<seq<File>>)
    ensures files.Some? <==> forall f | Reached(disk, swap, isSource, entry, f) :: f in disk
    ensures files.Some? ==> Sorted(files.value)
    ensures files.Some? ==> forall f :: f in files.value <==> Reached(disk, swap, isSource, entry, f)
  {
    hide Reached, Closed;
    var seen: set<File>, todo := {}, [entry];
    WalkStart(disk, swap, isSource, entry);
    while todo != []
      invariant Walking(disk, swap, isSource, entry, seen, todo)
      decreases |disk.Keys - seen|, |todo|
    {
      var file := swap(todo[|todo| - 1]);
      if file in seen || !isSource(file) {
        WalkSkip(disk, swap, isSource, entry, seen, todo);
        todo := todo[..|todo| - 1];
        continue;
      }
      if file !in disk {
        assert Reached(disk, swap, isSource, entry, file);
        return None;
      }
      WalkVisit(disk, swap, isSource, entry, seen, todo);
      Shrinks(disk.Keys, seen, file);
      seen := seen + {file};
      todo := todo[..|todo| - 1] + disk[file];
    }
    WalkDone(disk, swap, isSource, entry, seen);
    var s := SortFiles(seen);
    files := Some(s);
    assert forall f :: f in s <==> f in Elements(s);
  }

  lemma Shrinks(all: set<File>, seen: set<File>, f: File)
    requires f in all && f !in seen
    ensures |all - (seen + {f})| < |all - seen|
  {
    assert f in all - seen;
    Smaller(all - (seen + {f}), all - seen);
  }

  lemma Popped(todo: seq<File>)
    requires todo != []
    ensures forall n :: n in todo <==> n == todo[|todo| - 1] || n in todo[..|todo| - 1]
  {
    assert todo == todo[..|todo| - 1] + [todo[|todo| - 1]];
  }

  lemma Smaller(a: set<File>, b: set<File>)
    requires a < b
    ensures |a| < |b|
  {
    var x :| x in b && x !in a;
    assert a <= b - {x};
    SubsetSize(a, b - {x});
  }

  lemma {:induction false} SubsetSize(a: set<File>, b: set<File>)
    requires a <= b
    ensures |a| <= |b|
    decreases |a|
  {
    if a != {} {
      var x :| x in a;
      SubsetSize(a - {x}, b - {x});
    }
  }
}
