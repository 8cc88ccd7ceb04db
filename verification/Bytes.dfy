/** Bytes and NUL-terminated strings, as the C sources see them. */
module Bytes {

  type byte = b: int | 0 <= b < 256

  /** A byte of a C string's text: any byte but the terminator. */
  type CChar = b: int | 0 < b < 256 witness 1

  /** A C string without its terminating NUL. */
  type CString = seq<CChar>

  /** The byte at index `i` of a C string in memory; at its length sits the NUL. */
  function Peek(s: CString, i: nat): byte
    requires i <= |s|
  {
    if i < |s| then s[i] else 0
  }

  lemma Assoc<T>(a: seq<T>, b: seq<T>, c: seq<T>)
    ensures a + (b + c) == a + b + c
  {
  }

  lemma ShiftHead<T>(a: seq<T>, b: seq<T>)
    requires b != []
    ensures a + [b[0]] + b[1..] == a + b
  {
  }

  lemma SliceOfSlice<T>(s: seq<T>, a: nat, b: nat, c: nat, d: nat)
    requires a <= b <= |s| && c <= d <= b - a
    ensures s[a..b][c..d] == s[a + c..a + d]
  {
    var x, y := s[a..b][c..d], s[a + c..a + d];
    forall k | 0 <= k < d - c ensures x[k] == y[k] {
      assert x[k] == s[a..b][c + k];
    }
  }

  lemma TailOfConcat<T>(s: seq<T>, t: seq<T>, n: nat)
    requires n <= |s| + |t|
    ensures (s + t)[n..] == if n <= |s| then s[n..] + t else t[n - |s|..]
  {
  }

  const U64: int := 0x1_0000_0000_0000_0000

  const QUOTE: CChar := 0x22
  const BACKSLASH: CChar := 0x5C
  const COMMA: CChar := 0x2C

  // ---- Little-endian integers

  function Pow256(w: nat): nat {
    if w == 0 then 1 else 256 * Pow256(w - 1)
  }

  function LE(n: nat, w: nat): (b: seq<byte>)
    ensures |b| == w
    decreases w
  {
    if w == 0 then [] else [n % 256] + LE(n / 256, w - 1)
  }

  function FromLE(b: seq<byte>): nat {
    if b == [] then 0 else b[0] + 256 * FromLE(b[1..])
  }

  lemma {:induction false} ReadsBackLE(n: nat, w: nat)
    requires n < Pow256(w)
    ensures FromLE(LE(n, w)) == n
    decreases w
  {
    if w > 0 {
      ReadsBackLE(n / 256, w - 1);
      assert LE(n, w)[1..] == LE(n / 256, w - 1);
    }
  }

  lemma {:induction false} FitsLE(b: seq<byte>)
    ensures FromLE(b) < Pow256(|b|)
    decreases |b|
  {
    if b != [] {
      FitsLE(b[1..]);
    }
  }

  lemma Powers()
    ensures Pow256(1) == 0x100 && Pow256(2) == 0x1_0000 && Pow256(4) == 0x1_0000_0000
    ensures Pow256(8) == 0x1_0000_0000_0000_0000
  {
    assert Pow256(0) == 1;
    assert Pow256(3) == 256 * Pow256(2);
    assert Pow256(5) == 256 * Pow256(4);
    assert Pow256(6) == 256 * Pow256(5);
    assert Pow256(7) == 256 * Pow256(6);
  }
}
