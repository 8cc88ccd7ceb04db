/** The helper-marker search over a file read block by block (pkg_scan_marker in
    payload/include/pkg_install_logic.h), for any marker its buffers can hold. */
module MarkerScan {
  import opened Bytes

  const WINDOW: nat := 32
  const MARKER_MAX: nat := 17  // so that two tails of it fit the window and one the carry

  ghost predicate OccursAt(marker: seq<byte>, s: seq<byte>, i: int) {
    0 <= i && i + |marker| <= |s| && s[i..i + |marker|] == marker
  }

  ghost predicate Occurs(marker: seq<byte>, s: seq<byte>) {
    exists i :: OccursAt(marker, s, i)
  }

  /** The last `n` bytes, or all when there are fewer. */
  function Last<T>(s: seq<T>, n: nat): seq<T> {
    if |s| <= n then s else s[|s| - n..]
  }

  function Front<T>(s: seq<T>, n: nat): seq<T> {
    if |s| <= n then s else s[..n]
  }

  predicate ValidMarker(marker: seq<byte>) {
    1 <= |marker| <= MARKER_MAX
  }

  /** One call: whether it reports a hit, and the carry it leaves when it does not. */
  ghost function Scan(marker: seq<byte>, carry: seq<byte>, block: seq<byte>): (r: (bool, seq<byte>))
    requires ValidMarker(marker)
  {
    (Occurs(marker, Front(carry + block, WINDOW)) || Occurs(marker, block),
     if |block| >= |marker| - 1 then block[|block| - (|marker| - 1)..] else Last(carry + block, |marker| - 1))
  }

  /** A match inside a slice is a match of the whole, and back. */
  lemma Shift(marker: seq<byte>, whole: seq<byte>, from: nat, len: nat, i: int)
    requires from + len <= |whole| && 0 <= i && i + |marker| <= len
    ensures OccursAt(marker, whole[from..from + len], i) <==> OccursAt(marker, whole, from + i)
  {
    SliceOfSlice(whole, from, from + len, i, i + |marker|);
  }

  lemma SliceOccurs(marker: seq<byte>, whole: seq<byte>, from: nat, len: nat)
    requires from + len <= |whole| && Occurs(marker, whole[from..from + len])
    ensures Occurs(marker, whole)
  {
    var i :| OccursAt(marker, whole[from..from + len], i);
    Shift(marker, whole, from, len, i);
  }

  /** Where the seam window lies in the stream: it starts with the carry. */
  lemma WindowIsSlice(marker: seq<byte>, stream: seq<byte>, block: seq<byte>) returns (from: nat, len: nat)
    requires ValidMarker(marker)
    ensures from + len <= |stream + block|
    ensures (stream + block)[from..from + len] == Front(Last(stream, |marker| - 1) + block, WINDOW)
    ensures from == |stream| - |Last(stream, |marker| - 1)|
    ensures len == |block| + |stream| - from || len == WINDOW
  {
    var carry := Last(stream, |marker| - 1);
    from := |stream| - |carry|;
    len := |Front(carry + block, WINDOW)|;
    assert (stream + block)[from..] == carry + block;
    assert (stream + block)[from..from + len] == (stream + block)[from..][..len];
  }

  /** Any match of the longer stream is in the old stream, in the block, or in the seam window. */
  lemma MatchPlaces(marker: seq<byte>, stream: seq<byte>, block: seq<byte>, i: int)
    requires ValidMarker(marker) && OccursAt(marker, stream + block, i)
    ensures || Occurs(marker, stream) || Occurs(marker, block)
            || Occurs(marker, Front(Last(stream, |marker| - 1) + block, WINDOW))
  {
    var whole := stream + block;
    assert whole[0..0 + |stream|] == stream && whole[|stream|..|stream| + |block|] == block;
    if i >= |stream| {
      Shift(marker, whole, |stream|, |block|, i - |stream|);
    } else if i + |marker| <= |stream| {
      Shift(marker, whole, 0, |stream|, i);
    } else {
      var from, len := WindowIsSlice(marker, stream, block);
      Shift(marker, whole, from, len, i - from);
    }
  }

  lemma HitIffOccurs(marker: seq<byte>, stream: seq<byte>, block: seq<byte>)
    requires ValidMarker(marker) && !Occurs(marker, stream)
    ensures Scan(marker, Last(stream, |marker| - 1), block).0 <==> Occurs(marker, stream + block)
  {
    var whole := stream + block;
    if Occurs(marker, whole) {
      var i :| OccursAt(marker, whole, i);
      MatchPlaces(marker, stream, block, i);
    }
    if Occurs(marker, block) {
      assert whole[|stream|..|stream| + |block|] == block;
      SliceOccurs(marker, whole, |stream|, |block|);
    }
    if Occurs(marker, Front(Last(stream, |marker| - 1) + block, WINDOW)) {
      var from, len := WindowIsSlice(marker, stream, block);
      SliceOccurs(marker, whole, from, len);
    }
  }

  /** With the carry of a stream that has no match yet, a block is reported exactly when the longer
      stream has one, and the carry left is the longer stream's. */
  lemma ScanExtends(marker: seq<byte>, stream: seq<byte>, block: seq<byte>)
    requires ValidMarker(marker) && !Occurs(marker, stream)
    ensures var r := Scan(marker, Last(stream, |marker| - 1), block);
            && (r.0 <==> Occurs(marker, stream + block))
            && r.1 == Last(stream + block, |marker| - 1)
  {
    HitIffOccurs(marker, stream, block);
    LastOfConcat(stream, block, |marker| - 1);
  }

  lemma LastOfConcat<T>(stream: seq<T>, block: seq<T>, n: nat)
    ensures Last(stream + block, n) == if |block| >= n then block[|block| - n..] else Last(Last(stream, n) + block, n)
  {
    if |stream| + |block| > n {
      TailOfConcat(stream, block, |stream| + |block| - n);
      if |stream| > n > |block| {
        TailOfConcat(Last(stream, n), block, |block|);
        SliceOfSlice(stream, |stream| - n, |stream|, |block|, n);
      }
    }
  }

  // ---- Whole streams

  function Concat(blocks: seq<seq<byte>>): seq<byte> {
    if blocks == [] then [] else Concat(blocks[..|blocks| - 1]) + blocks[|blocks| - 1]
  }

  /** The carry after `blocks`, none of which was reported; the caller stops at the first that is. */
  ghost function CarryAfter(marker: seq<byte>, blocks: seq<seq<byte>>): Carry
    requires ValidMarker(marker)
    decreases |blocks|
  {
    if blocks == [] then Searching([])
    else
      var n := |blocks| - 1;
      match CarryAfter(marker, blocks[..n])
      case Found(k) => Found(k)
      case Searching(carry) =>
        var r := Scan(marker, carry, blocks[n]);
        if r.0 then Found(n) else Searching(r.1)
  }

  datatype Carry = Found(block: nat) | Searching(carry: seq<byte>)

  ghost predicate Reports(marker: seq<byte>, blocks: seq<seq<byte>>, c: Carry)
    requires ValidMarker(marker)
  {
    match c
    case Searching(carry) =>
      !Occurs(marker, Concat(blocks)) && carry == Last(Concat(blocks), |marker| - 1)
    case Found(k) =>
      && k < |blocks| && Occurs(marker, Concat(blocks))
      && !Occurs(marker, Concat(blocks[..k])) && Occurs(marker, Concat(blocks[..k + 1]))
  }

  /** However a stream is cut into blocks, empty and tiny ones included: the marker is reported in
      block `k` exactly when it first completes there, and in none exactly when it does not occur.
      Until then the carry is the last bytes of the stream, one fewer than the marker. */
  lemma {:induction false} CutDoesNotMatter(marker: seq<byte>, blocks: seq<seq<byte>>)
    requires ValidMarker(marker)
    ensures Reports(marker, blocks, CarryAfter(marker, blocks))
    decreases |blocks|
  {
    if blocks != [] {
      var n := |blocks| - 1;
      CutDoesNotMatter(marker, blocks[..n]);
      OneMoreBlock(marker, blocks[..n], blocks[n], CarryAfter(marker, blocks[..n]));
      assert blocks[..n] + [blocks[n]] == blocks;
    }
  }

  lemma OneMoreBlock(marker: seq<byte>, blocks: seq<seq<byte>>, b: seq<byte>, c: Carry)
    requires ValidMarker(marker) && Reports(marker, blocks, c)
    ensures Reports(marker, blocks + [b],
              match c
              case Found(k) => Found(k)
              case Searching(carry) =>
                var r := Scan(marker, carry, b);
                if r.0 then Found(|blocks|) else Searching(r.1))
  {
    var all := blocks + [b];
    assert all[..|blocks|] == blocks && all[..|blocks| + 1] == all;
    match c
    case Searching(carry) => ScanExtends(marker, Concat(blocks), b);
    case Found(k) =>
      assert all[..k] == blocks[..k] && all[..k + 1] == blocks[..k + 1];
      StillOccurs(marker, Concat(blocks), b);
  }

  lemma StillOccurs(marker: seq<byte>, s: seq<byte>, t: seq<byte>)
    requires Occurs(marker, s)
    ensures Occurs(marker, s + t)
  {
    assert (s + t)[0..0 + |s|] == s;
    SliceOccurs(marker, s + t, 0, |s|);
  }

  // ---- The C function

  /** The comparing loop over one buffer. */
  method Search(marker: seq<byte>, s: seq<byte>) returns (hit: bool)
    requires marker != []
    ensures hit <==> Occurs(marker, s)
  {
    var i := 0;
    while i + |marker| <= |s|
      invariant forall j | 0 <= j < i :: !OccursAt(marker, s, j)
    {
      if s[i] == marker[0] && s[i..i + |marker|] == marker {
        assert OccursAt(marker, s, i);
        return true;
      }
      assert !OccursAt(marker, s, i) by {
        if s[i..i + |marker|] == marker {
          assert s[i..i + |marker|][0] == marker[0];
        }
      }
      i := i + 1;
    }
    return false;
  }

  class Scanner {
    const carry: array<byte>
    var have: nat

    ghost predicate Valid(marker: seq<byte>)
      reads this
    {
      ValidMarker(marker) && carry.Length == 16 && have <= |marker| - 1
    }

    ghost function Kept(): seq<byte>
      requires have <= carry.Length
      reads this, carry
    {
      carry[..have]
    }

    constructor ()
      ensures carry.Length == 16 && have == 0 && fresh(carry)
    {
      carry := new byte[16](_ => 0);
      have := 0;
    }

    method Keep(tail: seq<byte>)
      requires |tail| <= carry.Length
      modifies this, carry
      ensures have == |tail| && Kept() == tail
    {
      var k := 0;
      while k < |tail|
        invariant k <= |tail| && carry[..k] == tail[..k]
      {
        carry[k] := tail[k];
        k := k + 1;
      }
      have := |tail|;
    }

    /** `pkg_scan_marker`: searches the seam, then the block, then keeps the tail. */
    method ScanBlock(marker: seq<byte>, b: seq<byte>) returns (hit: bool)
      requires Valid(marker)
      modifies this, carry
      ensures Valid(marker)
      ensures hit <==> Scan(marker, old(Kept()), b).0
      ensures hit ==> Kept() == old(Kept())
      ensures !hit ==> Kept() == Scan(marker, old(Kept()), b).1
    {
      ghost var before := Kept();
      var win := carry[..have];
      var i := 0;
      while i < |b| && |win| < WINDOW
        invariant i <= |b| && win == before + b[..i] && |win| <= WINDOW
      {
        win := win + [b[i]];
        i := i + 1;
      }
      assert win == Front(before + b, WINDOW) by {
        assert i < |b| ==> (before + b)[..WINDOW] == before + b[..i];
      }
      hit := Search(marker, win);
      if hit { return; }
      hit := Search(marker, b);
      if hit { return; }
      var m := |marker|;
      if |b| >= m - 1 {
        Keep(b[|b| - (m - 1)..]);
      } else {
        var keep := if have + |b| > m - 1 then m - 1 else have + |b|;
        var drop := have + |b| - keep;
        Keep((carry[..have] + b)[drop..]);
      }
    }
  }
}
