// Bytes in memory and on disk: splicing a run of bytes into a longer one, and
// the little-endian layout of 32-bit words.
module Bytes {

  type byte = b: int | 0 <= b < 256
  type word = w: int | 0 <= w < 0x1_0000_0000

  function Zeros(n: nat): (z: seq<byte>)
    ensures |z| == n && forall i :: 0 <= i < n ==> z[i] == 0
  {
    seq(n, _ => 0)
  }

  // Overwrite |data| bytes of s from position at.
  function Splice<T>(s: seq<T>, at: nat, data: seq<T>): (r: seq<T>)
    requires at + |data| <= |s|
    ensures |r| == |s|
    ensures forall k :: 0 <= k < |s| ==> r[k] == if at <= k < at + |data| then data[k - at] else s[k]
  {
    seq(|s|, k requires 0 <= k < |s| => if at <= k < at + |data| then data[k - at] else s[k])
  }

  lemma SpliceSlices<T>(s: seq<T>, at: nat, data: seq<T>)
    requires at + |data| <= |s|
    ensures var r := Splice(s, at, data);
            r[at..at + |data|] == data && r[..at] == s[..at] && r[at + |data|..] == s[at + |data|..]
  {
  }

  lemma SpliceElsewhere<T>(s: seq<T>, at: nat, data: seq<T>, lo: nat, hi: nat)
    requires at + |data| <= |s| && lo <= hi <= |s| && (hi <= at || at + |data| <= lo)
    ensures Splice(s, at, data)[lo..hi] == s[lo..hi]
  {
  }

  // A second splice that starts where the first one ended extends it.
  lemma SpliceMore<T>(s: seq<T>, at: nat, a: seq<T>, b: seq<T>)
    requires at + |a| + |b| <= |s|
    ensures Splice(Splice(s, at, a), at + |a|, b) == Splice(s, at, a + b)
  {
  }

  // The n elements of s from position at; nothing at all may lie anywhere.
  function Sub<T>(s: seq<T>, at: nat, n: nat): (r: seq<T>)
    requires n == 0 || at + n <= |s|
    ensures |r| == n
  {
    if n == 0 then [] else s[at..at + n]
  }

  lemma SubMore<T>(s: seq<T>, at: nat, n: nat, m: nat)
    requires at + n + m <= |s|
    ensures Sub(s, at, n + m) == Sub(s, at, n) + Sub(s, at + n, m)
  {
  }

  lemma SliceOfSlice<T>(s: seq<T>, a: nat, b: nat, c: nat, d: nat)
    requires a <= b <= |s| && c <= d <= b - a
    ensures s[a..b][c..d] == s[a + c..a + d]
  {
    forall k | 0 <= k < d - c
      ensures s[a..b][c..d][k] == s[a + c..a + d][k]
    {
      assert s[a..b][c + k] == s[a + c + k];
    }
  }

  lemma SpliceNothing<T>(s: seq<T>, at: nat)
    requires at <= |s|
    ensures Splice(s, at, []) == s
  {
  }

  function Le32(w: word): (b: seq<byte>)
    ensures |b| == 4
  {
    var w1 := w / 0x100;
    var w2 := w1 / 0x100;
    [w % 0x100, w1 % 0x100, w2 % 0x100, w2 / 0x100]
  }

  function FromLe32(b: seq<byte>): word
    requires |b| == 4
  {
    b[0] as int + 0x100 * (b[1] as int) + 0x1_0000 * (b[2] as int) + 0x100_0000 * (b[3] as int)
  }

  // A word as an off_t: negative from 2^31 on.
  function Signed32(w: word): (r: int)
    ensures -0x8000_0000 <= r < 0x8000_0000 && (r == w || r == w - 0x1_0000_0000)
  {
    if w < 0x8000_0000 then w else w - 0x1_0000_0000
  }

  lemma Le32RoundTrip(w: word)
    ensures FromLe32(Le32(w)) == w
  {
  }

  // The bytes of a C string up to its terminator, or all of s without one.
  function CString(s: seq<byte>): (c: seq<byte>)
    ensures |c| <= |s| && c == s[..|c|] && 0 !in c
    ensures |c| < |s| ==> s[|c|] == 0
    ensures |c| < |s| <==> 0 in s
  {
    if s == [] || s[0] == 0 then [] else [s[0]] + CString(s[1..])
  }

  lemma {:induction false} CStringOf(s: seq<byte>, name: seq<byte>)
    requires |name| < |s| && s[..|name|] == name && s[|name|] == 0 && 0 !in name
    ensures CString(s) == name && 0 in s
  {
    if name == [] {
    } else {
      assert s[0] == name[0];
      assert s[1..][..|name| - 1] == name[1..];
      CStringOf(s[1..], name[1..]);
    }
  }
}
