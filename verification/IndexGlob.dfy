/** The file index's name pattern match (payload/include/index_glob.h). */
module IndexGlob {
  import opened Bytes

  const STAR: CChar := 42
  const ANY: CChar := 63

  function Lower(c: CChar): CChar {
    if 65 <= c <= 90 then c + 32 else c
  }

  /** Whether pattern byte `p`, not a star, stands for name byte `c`. */
  predicate One(p: CChar, c: CChar) {
    p == ANY || Lower(p) == Lower(c)
  }

  /** The declared meaning: `*` is any run of bytes, `?` one byte, any other byte itself up to
      ASCII case, and the whole name must be used up. */
  ghost predicate Matches(pat: CString, str: CString)
    decreases |pat|
  {
    if pat == [] then str == []
    else if pat[0] == STAR then exists k | 0 <= k <= |str| :: Matches(pat[1..], str[k..])
    else str != [] && One(pat[0], str[0]) && Matches(pat[1..], str[1..])
  }

  /** `pat[lo..hi]` holds no star and matches the bytes of `str` at `at`, one for one. */
  ghost predicate Aligned(pat: CString, lo: nat, hi: nat, str: CString, at: nat)
    requires lo <= hi <= |pat| && at + (hi - lo) <= |str|
  {
    forall j {:trigger pat[j]} | lo <= j < hi :: pat[j] != STAR && One(pat[j], str[at + (j - lo)])
  }

  /** A star-free stretch of pattern consumes exactly its own length of the name. */
  lemma {:induction false} PeelAligned(pat: CString, lo: nat, hi: nat, str: CString, at: nat)
    requires lo <= hi <= |pat| && at <= |str|
    requires forall j | lo <= j < hi :: pat[j] != STAR
    ensures Matches(pat[lo..], str[at..]) <==>
              at + (hi - lo) <= |str| && Aligned(pat, lo, hi, str, at)
              && Matches(pat[hi..], str[at + (hi - lo)..])
    decreases hi - lo
  {
    if lo == hi {
    } else {
      assert pat[lo..][0] == pat[lo] && pat[lo..][1..] == pat[lo + 1..];
      if at < |str| {
        assert str[at..][0] == str[at] && str[at..][1..] == str[at + 1..];
        PeelAligned(pat, lo + 1, hi, str, at + 1);
      }
    }
  }

  /** A pattern past a star: some later start of the name matches it. */
  ghost predicate AfterStar(pat: CString, star: nat, str: CString, resume: nat)
    requires star <= |pat| && resume <= |str|
  {
    exists k | resume <= k <= |str| :: Matches(pat[star..], str[k..])
  }

  /** A star at `p` in the pattern is `AfterStar` at `p + 1`. */
  lemma StarMeaning(pat: CString, p: nat, str: CString, s: nat)
    requires p < |pat| && pat[p] == STAR && s <= |str|
    ensures Matches(pat[p..], str[s..]) <==> AfterStar(pat, p + 1, str, s)
  {
    assert pat[p..][0] == STAR && pat[p..][1..] == pat[p + 1..];
    if Matches(pat[p..], str[s..]) {
      var k :| 0 <= k <= |str[s..]| && Matches(pat[p + 1..], str[s..][k..]);
      assert str[s..][k..] == str[s + k..];
    }
    if AfterStar(pat, p + 1, str, s) {
      var k :| s <= k <= |str| && Matches(pat[p + 1..], str[k..]);
      assert str[s..][k - s..] == str[k..];
    }
  }

  /** Two stars in a row mean one. */
  lemma StarRun(pat: CString, p: nat, str: CString, s: nat)
    requires p < |pat| && pat[p] == STAR && s <= |str|
    ensures AfterStar(pat, p, str, s) <==> AfterStar(pat, p + 1, str, s)
  {
    if AfterStar(pat, p, str, s) {
      var k :| s <= k <= |str| && Matches(pat[p..], str[k..]);
      StarMeaning(pat, p, str, k);
    }
    if AfterStar(pat, p + 1, str, s) {
      StarMeaning(pat, p, str, s);
    }
  }

  /** Why one backtrack point is enough: once the pattern between two stars has been aligned with
      the name at its earliest place, any match at all can be had without moving the first star. */
  lemma ForgetEarlierStar(pat: CString, star: nat, p: nat, str: CString, resume: nat)
    requires star <= p < |pat| && resume + (p - star) <= |str|
    requires pat[p] == STAR && Aligned(pat, star, p, str, resume)
    ensures AfterStar(pat, star, str, resume) <==> AfterStar(pat, p + 1, str, resume + (p - star))
  {
    hide Matches;
    var s := resume + (p - star);
    StarMeaning(pat, p, str, s);
    PeelAligned(pat, star, p, str, resume);
    if AfterStar(pat, star, str, resume) {
      var k :| resume <= k <= |str| && Matches(pat[star..], str[k..]);
      PeelAligned(pat, star, p, str, k);
      StarMeaning(pat, p, str, k + (p - star));
    }
  }

  /** A mismatch (or an exhausted pattern) right after the aligned stretch rules this start out. */
  lemma GiveUpStart(pat: CString, star: nat, p: nat, str: CString, resume: nat)
    requires star <= p <= |pat| && resume + (p - star) < |str|
    requires Aligned(pat, star, p, str, resume)
    requires p < |pat| ==> pat[p] != STAR && !One(pat[p], str[resume + (p - star)])
    ensures AfterStar(pat, star, str, resume) <==> AfterStar(pat, star, str, resume + 1)
  {
    PeelAligned(pat, star, p, str, resume);
  }

  ghost predicate AllStars(pat: CString, p: nat)
    requires p <= |pat|
  {
    forall j | p <= j < |pat| :: pat[j] == STAR
  }

  lemma {:induction false} EmptyName(pat: CString, p: nat)
    requires p <= |pat|
    ensures Matches(pat[p..], []) <==> AllStars(pat, p)
    decreases |pat| - p
  {
    if p < |pat| {
      assert pat[p..][0] == pat[p] && pat[p..][1..] == pat[p + 1..];
      EmptyName(pat, p + 1);
      if pat[p] == STAR {
        var e: CString := [];
        assert e[0..] == e;
        StarMeaning(pat, p, e, 0);
      }
    }
  }

  /** At the end of the name only the last start is left, and the rest must be stars. */
  lemma EndOfName(pat: CString, star: nat, p: nat, str: CString, resume: nat)
    requires star <= p <= |pat| && resume + (p - star) == |str|
    requires Aligned(pat, star, p, str, resume)
    ensures AfterStar(pat, star, str, resume) <==> AllStars(pat, p)
  {
    EmptyName(pat, p);
    assert str[|str|..] == [];
    PeelAligned(pat, star, p, str, resume);
    if AfterStar(pat, star, str, resume) {
      var k :| resume <= k <= |str| && Matches(pat[star..], str[k..]);
      PeelAligned(pat, star, p, str, k);
    }
  }

  /** A star with nothing after it takes the rest of any name. */
  lemma TrailingStar(pat: CString, str: CString, s: nat)
    requires s <= |str|
    ensures AfterStar(pat, |pat|, str, s)
  {
    assert Matches(pat[|pat|..], str[|str|..]);
  }

  /** What the loop has established about its four cursors. */
  ghost predicate Progress(pat: CString, str: CString, starred: bool, star: nat, resume: nat, p: nat, s: nat)
  {
    && star <= p <= |pat| && resume <= s <= |str|
    && p - star == s - resume
    && (!starred ==> star == 0 && resume == 0)
    && Aligned(pat, star, p, str, resume)
    && (starred ==> (Matches(pat, str) <==> AfterStar(pat, star, str, resume)))
  }

  /** The matcher decides exactly `Matches`, in at most (|pat| + 1) * (|str| + 1) rounds. The C
      pointers are indices; `starred` is `star != 0`. */
  method Match(pat: CString, str: CString) returns (matched: bool, ghost rounds: nat)
    ensures matched <==> Matches(pat, str)
    ensures rounds <= (|pat| + 1) * (|str| + 1)
  {
    hide Matches, AfterStar;
    var starred, star, resume := false, 0, 0;
    var p, s := 0, 0;
    rounds := 0;
    while s < |str|
      invariant Progress(pat, str, starred, star, resume, p, s)
      invariant rounds <= resume * (|pat| + 1) + p
      decreases |str| - resume, |pat| - p
    {
      rounds := rounds + 1;
      RoundBound(|pat|, |str|, resume);
      if Peek(pat, p) == STAR {
        ghost var p0 := p;
        SeeStar(pat, str, starred, star, resume, p, s);
        StarRun(pat, p, str, s);
        while Peek(pat, p) == STAR
          invariant p0 <= p <= |pat|
          invariant Matches(pat, str) <==> AfterStar(pat, p, str, s)
          decreases |pat| - p
        {
          StarRun(pat, p, str, s);
          p := p + 1;
        }
        if Peek(pat, p) == 0 {
          TrailingStar(pat, str, s);
          return true, rounds;
        }
        RoundGrows(|pat|, resume, s);
        starred, star, resume := true, p, s;
        continue;
      }
      if p < |pat| && (pat[p] == ANY || Lower(pat[p]) == Lower(str[s])) {
        p, s := p + 1, s + 1;
        continue;
      }
      if !starred {
        NoStarNoMatch(pat, p, str);
        return false, rounds;
      }
      GiveUpStart(pat, star, p, str, resume);
      RoundGrows(|pat|, resume, resume + 1);
      p, resume := star, resume + 1;
      s := resume;
    }
    Finish(pat, str, starred, star, resume, p, s);
    RoundBound(|pat|, |str|, resume);
    while Peek(pat, p) == STAR
      invariant p <= |pat|
      invariant Matches(pat, str) <==> AllStars(pat, p)
      decreases |pat| - p
    {
      p := p + 1;
    }
    matched := Peek(pat, p) == 0;
  }

  lemma RoundBound(n: nat, m: nat, resume: nat)
    requires resume <= m
    ensures resume * (n + 1) + n + 1 <= (n + 1) * (m + 1)
  {
    assert (n + 1) * (m + 1) == m * (n + 1) + n + 1;
    RoundGrows(n, resume, m);
  }

  lemma RoundGrows(n: nat, lo: nat, hi: nat)
    requires lo <= hi
    ensures lo * (n + 1) <= hi * (n + 1)
    ensures lo < hi ==> lo * (n + 1) + n + 1 <= hi * (n + 1)
    decreases hi - lo
  {
    if lo < hi {
      RoundGrows(n, lo, hi - 1);
      assert hi * (n + 1) == (hi - 1) * (n + 1) + (n + 1);
    }
  }

  lemma SeeStar(pat: CString, str: CString, starred: bool, star: nat, resume: nat, p: nat, s: nat)
    requires Progress(pat, str, starred, star, resume, p, s) && p < |pat| && pat[p] == STAR
    ensures Matches(pat, str) <==> AfterStar(pat, p + 1, str, s)
  {
    if starred {
      ForgetEarlierStar(pat, star, p, str, resume);
    } else {
      assert pat[0..] == pat && str[0..] == str;
      PeelAligned(pat, 0, p, str, 0);
      StarMeaning(pat, p, str, s);
    }
  }

  lemma NoStarNoMatch(pat: CString, p: nat, str: CString)
    requires p <= |pat| && p < |str| && Aligned(pat, 0, p, str, 0)
    requires p < |pat| ==> pat[p] != STAR && !One(pat[p], str[p])
    ensures !Matches(pat, str)
  {
    assert pat[0..] == pat && str[0..] == str;
    PeelAligned(pat, 0, p, str, 0);
  }

  lemma Finish(pat: CString, str: CString, starred: bool, star: nat, resume: nat, p: nat, s: nat)
    requires Progress(pat, str, starred, star, resume, p, s) && s == |str|
    ensures Matches(pat, str) <==> AllStars(pat, p)
  {
    if starred {
      EndOfName(pat, star, p, str, resume);
    } else {
      assert pat[0..] == pat && str[0..] == str;
      PeelAligned(pat, 0, p, str, 0);
      EmptyName(pat, p);
      assert str[|str|..] == [];
    }
  }

  // ---- Patterns without stars, and with one

  /** The same byte, or the two cases of one ASCII letter. */
  ghost predicate SameLetter(a: CChar, b: CChar) {
    || a == b
    || ('A' as int <= a <= 'Z' as int && b == a - 'A' as int + 'a' as int)
    || ('A' as int <= b <= 'Z' as int && a == b - 'A' as int + 'a' as int)
  }

  /** `part` stands, byte for byte, at `at` in the name: `?` for any byte, the others for themselves. */
  ghost predicate StandsAt(part: CString, str: CString, at: int) {
    && 0 <= at <= |str| - |part|
    && forall i | 0 <= i < |part| :: part[i] == '?' as int || SameLetter(part[i], str[at + i])
  }

  ghost predicate Starless(part: CString) {
    forall i | 0 <= i < |part| :: part[i] != '*' as int
  }

  lemma StandsIffAligned(pat: CString, lo: nat, hi: nat, str: CString, at: nat)
    requires lo <= hi <= |pat| && at + (hi - lo) <= |str| && Starless(pat[lo..hi])
    ensures StandsAt(pat[lo..hi], str, at) <==> Aligned(pat, lo, hi, str, at)
  {
    var part := pat[lo..hi];
    assert forall j | lo <= j < hi :: pat[j] == part[j - lo];
    assert forall i | 0 <= i < |part| :: part[i] == pat[lo + i];
  }

  /** A pattern without a star is the name itself, up to `?` and the case of ASCII letters. */
  lemma StarlessIff(pat: CString, str: CString)
    requires Starless(pat)
    ensures Matches(pat, str) <==> |pat| == |str| && StandsAt(pat, str, 0)
  {
    assert pat[0..] == pat && str[0..] == str && pat[0..|pat|] == pat;
    PeelAligned(pat, 0, |pat|, str, 0);
    if |pat| <= |str| {
      StandsIffAligned(pat, 0, |pat|, str, 0);
      assert str[|pat|..] == [] <==> |pat| == |str|;
    }
  }

  /** A star between two parts: the name begins with one and ends with the other, without overlap. */
  lemma OneStarIff(front: CString, back: CString, str: CString)
    requires Starless(front) && Starless(back)
    ensures Matches(front + ['*' as int] + back, str) <==>
              && |front| + |back| <= |str|
              && StandsAt(front, str, 0) && StandsAt(back, str, |str| - |back|)
  {
    hide Matches;
    var pat, p := front + [STAR] + back, |front|;
    assert pat[0..p] == front && pat[p + 1..] == back && pat[0..] == pat && str[0..] == str;
    PeelAligned(pat, 0, p, str, 0);
    if p <= |str| {
      StandsIffAligned(pat, 0, p, str, 0);
      StarMeaning(pat, p, str, p);
      if AfterStar(pat, p + 1, str, p) {
        var k :| p <= k <= |str| && Matches(pat[p + 1..], str[k..]);
        BackIff(back, str, k);
      }
      if p + |back| <= |str| {
        BackIff(back, str, |str| - |back|);
      }
    }
  }

  lemma BackIff(back: CString, str: CString, k: nat)
    requires Starless(back) && k <= |str|
    ensures Matches(back, str[k..]) <==> k + |back| == |str| && StandsAt(back, str, k)
  {
    StarlessIff(back, str[k..]);
    assert forall i | 0 <= i < |str| - k :: str[k..][i] == str[k + i];
  }

  /** Any number of parts, each after a star: they stand one behind the other, the last one at the end. */
  ghost predicate InOrder(parts: seq<CString>, str: CString, at: nat)
    decreases |parts|
  {
    if parts == [] then at == |str|
    else
      var n := |parts[0]|;
      exists k | at <= k <= |str| - n :: StandsAt(parts[0], str, k) && InOrder(parts[1..], str, k + n)
  }

  function Starred(parts: seq<CString>): CString {
    if parts == [] then [] else ['*' as int] + parts[0] + Starred(parts[1..])
  }

  lemma {:induction false} StarredIff(parts: seq<CString>, str: CString, at: nat)
    requires at <= |str| && forall i | 0 <= i < |parts| :: Starless(parts[i])
    ensures Matches(Starred(parts), str[at..]) <==> InOrder(parts, str, at)
    decreases |parts|
  {
    if parts != [] {
      forall k: nat | k <= |str| - |parts[0]| ensures PartMeans(parts, str, k) {
        PartIff(parts, str, k);
        StarredIff(parts[1..], str, k + |parts[0]|);
      }
      StarredStep(parts, str, at);
    }
  }

  ghost predicate PartMeans(parts: seq<CString>, str: CString, k: nat)
    requires parts != [] && k <= |str|
  {
    Matches(parts[0] + Starred(parts[1..]), str[k..]) <==> PartAt(parts, str, k)
  }

  lemma StarredStep(parts: seq<CString>, str: CString, at: nat)
    requires parts != [] && at <= |str| && Starless(parts[0])
    requires forall k: nat | k <= |str| - |parts[0]| :: PartMeans(parts, str, k)
    ensures Matches(Starred(parts), str[at..]) <==> InOrder(parts, str, at)
  {
    hide Matches, InOrder, Starless, StandsAt;
    var pat, tail := Starred(parts), parts[0] + Starred(parts[1..]);
    assert pat[0..] == pat && pat[0] == STAR && pat[1..] == tail;
    StarMeaning(pat, 0, str, at);
    SomePart(parts, str, at);
    if k: nat :| at <= k <= |str| && Matches(tail, str[k..]) {
      PartIff(parts, str, k);
      assert PartMeans(parts, str, k);
    }
    if k: nat :| at <= k <= |str| && PartAt(parts, str, k) {
      assert PartMeans(parts, str, k);
      assert Matches(pat[1..], str[k..]);
    }
  }

  ghost predicate PartAt(parts: seq<CString>, str: CString, k: nat)
    requires parts != []
  {
    k + |parts[0]| <= |str| && StandsAt(parts[0], str, k) && InOrder(parts[1..], str, k + |parts[0]|)
  }

  lemma SomePart(parts: seq<CString>, str: CString, at: nat)
    requires parts != []
    ensures InOrder(parts, str, at) <==> exists k: nat | at <= k <= |str| :: PartAt(parts, str, k)
  {
    var n := |parts[0]|;
    if InOrder(parts, str, at) {
      var k :| at <= k <= |str| - n && StandsAt(parts[0], str, k) && InOrder(parts[1..], str, k + n);
      assert PartAt(parts, str, k);
    }
    if k: nat :| at <= k <= |str| && PartAt(parts, str, k) {
      assert StandsAt(parts[0], str, k) && InOrder(parts[1..], str, k + n);
    }
  }

  lemma PartIff(parts: seq<CString>, str: CString, k: nat)
    requires parts != [] && k <= |str| && Starless(parts[0])
    ensures var n, rest := |parts[0]|, Starred(parts[1..]);
            Matches(parts[0] + rest, str[k..]) <==>
              k + n <= |str| && StandsAt(parts[0], str, k) && Matches(rest, str[k + n..])
  {
    hide Matches;
    var n, pat := |parts[0]|, parts[0] + Starred(parts[1..]);
    assert pat[0..] == pat && pat[0..n] == parts[0] && pat[n..] == Starred(parts[1..]);
    PeelAligned(pat, 0, n, str, k);
    if k + n <= |str| {
      StandsIffAligned(pat, 0, n, str, k);
    }
  }

  /** What any pattern means: cut at its stars, the first part begins the name, the last one ends it, and
      the others stand between them in order, without overlap. */
  lemma PatternIff(front: CString, parts: seq<CString>, str: CString)
    requires Starless(front) && forall i | 0 <= i < |parts| :: Starless(parts[i])
    ensures Matches(front + Starred(parts), str) <==> StandsAt(front, str, 0) && InOrder(parts, str, |front|)
  {
    hide Matches;
    var pat, p := front + Starred(parts), |front|;
    assert pat[0..p] == front && pat[p..] == Starred(parts) && pat[0..] == pat && str[0..] == str;
    PeelAligned(pat, 0, p, str, 0);
    if p <= |str| {
      StandsIffAligned(pat, 0, p, str, 0);
      StarredIff(parts, str, p);
    }
  }
}
