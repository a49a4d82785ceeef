// Runs of equal bits in a bitmap: the first-fit search used for sectors and
// for pages, and the bytes a bitmap occupies in a file.
module Bitmap {
  import opened Bytes

  predicate Run(b: seq<bool>, i: nat, cnt: nat, value: bool) {
    i + cnt <= |b| && forall k :: i <= k < i + cnt ==> b[k] == value
  }

  ghost predicate FirstRun(b: seq<bool>, i: nat, cnt: nat, value: bool) {
    Run(b, i, cnt, value) && forall j: nat :: j < i ==> !Run(b, j, cnt, value)
  }

  // True if some of the cnt bits from start equals value.
  method Contains(b: seq<bool>, start: nat, cnt: nat, value: bool) returns (found: bool)
    requires start + cnt <= |b|
    ensures found <==> !Run(b, start, cnt, !value)
  {
    var i := 0;
    while i < cnt
      invariant i <= cnt && Run(b, start, i, !value)
    {
      if b[start + i] == value {
        return true;
      }
      i := i + 1;
    }
    return false;
  }

  // The first run of cnt bits equal to value at or after start, if any.
  method Scan(b: seq<bool>, start: nat, cnt: nat, value: bool) returns (found: bool, idx: nat)
    requires start <= |b|
    ensures found ==> start <= idx && Run(b, idx, cnt, value)
    ensures found ==> forall j: nat :: start <= j < idx ==> !Run(b, j, cnt, value)
    ensures !found ==> forall j: nat :: start <= j ==> !Run(b, j, cnt, value)
  {
    idx := 0;
    if cnt <= |b| {
      var last := |b| - cnt;
      var i := start;
      while i <= last
        invariant start <= i
        invariant forall j: nat :: start <= j < i ==> !Run(b, j, cnt, value)
      {
        var other := Contains(b, i, cnt, !value);
        if !other {
          return true, i;
        }
        i := i + 1;
      }
    }
    return false, 0;
  }

  // ---- The file image of a bitmap: 32-bit elements, least significant bit
  // first, so bit k is bit k % 8 of byte k / 8. ----

  function FileSize(bits: nat): nat {
    4 * ((bits + 31) / 32)
  }

  // The n bits of b from bit k, bits past its end being 0.
  function Pack(b: seq<bool>, k: nat, n: nat): (v: nat)
    requires n <= 8
    ensures n == 8 ==> v < 256
    ensures n == 7 ==> v < 128
    ensures n == 6 ==> v < 64
    ensures n == 5 ==> v < 32
    ensures n == 4 ==> v < 16
    ensures n == 3 ==> v < 8
    ensures n == 2 ==> v < 4
    ensures n == 1 ==> v < 2
    decreases n
  {
    if n == 0 then 0
    else (if k < |b| && b[k] then 1 else 0) + 2 * Pack(b, k + 1, n - 1)
  }

  function Image(b: seq<bool>): (r: seq<byte>)
    ensures |r| == FileSize(|b|)
  {
    seq(FileSize(|b|), i requires 0 <= i => Pack(b, 8 * i, 8))
  }

  function Bit(v: nat, i: nat): bool {
    if i == 0 then v % 2 == 1 else Bit(v / 2, i - 1)
  }

  lemma Low(first: nat, rest: nat)
    requires first < 2
    ensures (first + 2 * rest) % 2 == first && (first + 2 * rest) / 2 == rest
  {
  }

  lemma {:induction false} PackedBit(b: seq<bool>, k: nat, n: nat, i: nat)
    requires i < n <= 8 && k + i < |b|
    ensures Bit(Pack(b, k, n), i) == b[k + i]
    decreases n
  {
    var rest := Pack(b, k + 1, n - 1);
    LowBit(b, k, n, rest);
    BitIs(Pack(b, k, n), i);
    hide *;
    if i > 0 {
      PackedBit(b, k + 1, n - 1, i - 1);
    }
  }

  lemma BitIs(v: nat, i: nat)
    ensures Bit(v, i) == if i == 0 then v % 2 == 1 else Bit(v / 2, i - 1)
  {
  }

  lemma LowBit(b: seq<bool>, k: nat, n: nat, rest: nat)
    requires 0 < n <= 8 && k < |b| && rest == Pack(b, k + 1, n - 1)
    ensures (Pack(b, k, n) % 2 == 1 <==> b[k]) && Pack(b, k, n) / 2 == rest
  {
    Low(if b[k] then 1 else 0, rest);
  }

  lemma InImage(j: nat, i: nat, bits: nat)
    requires i < 8 && 8 * j + i < bits
    ensures j < FileSize(bits)
  {
  }

  // Reading an image gives the bits that were written: bit i of byte j is bit
  // 8 j + i of the bitmap.
  lemma ImageRoundTrip(b: seq<bool>, j: nat, i: nat)
    requires i < 8 && 8 * j + i < |b|
    ensures j < FileSize(|b|) && Bit(Image(b)[j], i) == b[8 * j + i]
  {
    hide FileSize, Pack;
    InImage(j, i, |b|);
    PackedBit(b, 8 * j, 8, i);
  }
}
