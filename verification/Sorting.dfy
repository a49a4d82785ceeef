// sort and binary_search of the C library: elements of any size in an array of
// bytes, compared by a function of the caller.
module Sorting {
  import opened Bytes
  import Arithmetic

  type Elem = seq<byte>
  type Compare = (Elem, Elem) -> int

  // What the comparison function owes: strcmp()-like results that order the
  // elements totally, different elements being allowed to compare equal.
  ghost predicate TotalPreorder(cmp: Compare, size: nat) {
    && (forall a, b :: |a| == size && |b| == size ==> (cmp(a, b) > 0 <==> cmp(b, a) < 0))
    && (forall a, b, c :: |a| == size && |b| == size && |c| == size && cmp(a, b) <= 0 && cmp(b, c) <= 0 ==> cmp(a, c) <= 0)
  }

  // ---- Elements in an array of bytes. ----

  function At(s: seq<byte>, size: nat, k: nat): Elem {
    if Ofs(k, size) + size <= |s| then s[Ofs(k, size)..Ofs(k, size) + size] else []
  }

  function Elems(s: seq<byte>, size: nat, cnt: nat): (e: seq<Elem>)
    ensures |e| == cnt && forall k :: 0 <= k < cnt ==> e[k] == At(s, size, k)
  {
    seq(cnt, k requires 0 <= k < cnt => At(s, size, k))
  }

  // Where element k starts.
  function Ofs(k: nat, size: nat): nat {
    k * size
  }

  lemma Inside(k: nat, cnt: nat, size: nat)
    requires k < cnt
    ensures Ofs(k, size) + size <= Ofs(cnt, size)
  {
    var d := cnt - k - 1;
    assert (k + 1 + d) * size == k * size + size + d * size;
  }

  // Different elements do not overlap.
  lemma Beside(j: nat, k: nat, size: nat)
    requires j != k
    ensures Ofs(j, size) + size <= Ofs(k, size) || Ofs(k, size) + size <= Ofs(j, size)
  {
    hide Ofs;
    if j < k { Inside(j, k, size); } else { Inside(k, j, size); }
  }

  function Swapped<T>(s: seq<T>, a: nat, b: nat): (r: seq<T>)
    requires a < |s| && b < |s|
    ensures |r| == |s| && forall k :: 0 <= k < |s| ==> r[k] == s[if k == a then b else if k == b then a else k]
  {
    s[a := s[b]][b := s[a]]
  }

  lemma SwapKeeps<T>(s: seq<T>, a: nat, b: nat)
    requires a < |s| && b < |s|
    ensures multiset(Swapped(s, a, b)) == multiset(s)
  {
  }

  // do_swap, with indices from 1.
  method DoSwap(array_: array<byte>, aIdx: nat, bIdx: nat, size: nat, ghost cnt: nat)
    requires 1 <= aIdx <= cnt && 1 <= bIdx <= cnt && Ofs(cnt, size) <= array_.Length
    modifies array_
    ensures Elems(array_[..], size, cnt) == Swapped(old(Elems(array_[..], size, cnt)), aIdx - 1, bIdx - 1)
    ensures array_[..][Ofs(cnt, size)..] == old(array_[..])[Ofs(cnt, size)..]
  {
    hide Ofs, Elems, BytesSwapped;
    var a, b := Ofs(aIdx - 1, size), Ofs(bIdx - 1, size);
    Inside(aIdx - 1, cnt, size);
    Inside(bIdx - 1, cnt, size);
    if aIdx != bIdx { Beside(aIdx - 1, bIdx - 1, size); }
    ghost var was := array_[..];
    SwapBytes(array_, a, b, size);
    SwappedBytes(was, array_[..], aIdx - 1, bIdx - 1, size, cnt);
  }

  // Its loop, with the offsets of the two elements.
  method SwapBytes(array_: array<byte>, a: nat, b: nat, size: nat)
    requires a + size <= array_.Length && b + size <= array_.Length
    requires a == b || a + size <= b || b + size <= a
    modifies array_
    ensures BytesSwapped(old(array_[..]), array_[..], a, b, size)
  {
    ghost var was := array_[..];
    for i := 0 to size
      invariant BytesSwapped(was, array_[..], a, b, i)
    {
      var t := array_[a + i];
      array_[a + i] := array_[b + i];
      array_[b + i] := t;
    }
  }

  // The first i bytes at a and at b have changed places.
  ghost predicate BytesSwapped(s: seq<byte>, s': seq<byte>, a: nat, b: nat, i: nat) {
    && |s'| == |s| && a + i <= |s| && b + i <= |s|
    && forall k :: 0 <= k < |s| ==> s'[k] == Mixed(s, a, b, i, k)
  }

  function Mixed(s: seq<byte>, a: nat, b: nat, i: nat, k: nat): byte
    requires k < |s| && a + i <= |s| && b + i <= |s|
  {
    if a <= k < a + i then s[b + (k - a)] else if b <= k < b + i then s[a + (k - b)] else s[k]
  }

  lemma SliceSwapped(s: seq<byte>, s': seq<byte>, a: nat, b: nat, size: nat, j: nat)
    requires BytesSwapped(s, s', a, b, size) && j + size <= |s|
    requires a == b || a + size <= b || b + size <= a
    requires j == a || j + size <= a || a + size <= j
    requires j == b || j + size <= b || b + size <= j
    ensures var from := if j == a then b else if j == b then a else j;
            s'[j..j + size] == s[from..from + size]
  {
    var from := if j == a then b else if j == b then a else j;
    forall k | j <= k < j + size
      ensures s'[k] == s[from + (k - j)]
    {
      assert s'[k] == Mixed(s, a, b, size, k);
    }
  }

  lemma SwappedBytes(s: seq<byte>, s': seq<byte>, a: nat, b: nat, size: nat, cnt: nat)
    requires a < cnt && b < cnt && Ofs(cnt, size) <= |s| && BytesSwapped(s, s', Ofs(a, size), Ofs(b, size), size)
    ensures Elems(s', size, cnt) == Swapped(Elems(s, size, cnt), a, b)
    ensures s'[Ofs(cnt, size)..] == s[Ofs(cnt, size)..]
  {
    hide Ofs;
    forall j | 0 <= j < cnt
      ensures At(s', size, j) == At(s, size, if j == a then b else if j == b then a else j)
    {
      SwappedAt(s, s', a, b, size, cnt, j);
    }
    hide At, BytesSwapped;
    TailSame(s, s', a, b, size, cnt);
  }

  lemma TailSame(s: seq<byte>, s': seq<byte>, a: nat, b: nat, size: nat, cnt: nat)
    requires a < cnt && b < cnt && Ofs(cnt, size) <= |s| && BytesSwapped(s, s', Ofs(a, size), Ofs(b, size), size)
    ensures |s'| == |s| && s'[Ofs(cnt, size)..] == s[Ofs(cnt, size)..]
  {
    hide Ofs;
    Inside(a, cnt, size);
    Inside(b, cnt, size);
    TailOf(s, s', Ofs(a, size), Ofs(b, size), size, Ofs(cnt, size));
  }

  lemma TailOf(s: seq<byte>, s': seq<byte>, a: nat, b: nat, size: nat, from: nat)
    requires BytesSwapped(s, s', a, b, size) && a + size <= from <= |s| && b + size <= from
    ensures s'[from..] == s[from..]
  {
    forall k | from <= k < |s|
      ensures s'[k] == s[k]
    {
      assert s'[k] == Mixed(s, a, b, size, k);
    }
  }

  lemma SwappedAt(s: seq<byte>, s': seq<byte>, a: nat, b: nat, size: nat, cnt: nat, j: nat)
    requires a < cnt && b < cnt && j < cnt && Ofs(cnt, size) <= |s| && BytesSwapped(s, s', Ofs(a, size), Ofs(b, size), size)
    ensures At(s', size, j) == At(s, size, if j == a then b else if j == b then a else j)
  {
    hide BytesSwapped, Ofs;
    Inside(j, cnt, size);
    Inside(a, cnt, size);
    Inside(b, cnt, size);
    if j != a { Beside(j, a, size); }
    if j != b { Beside(j, b, size); }
    if a != b { Beside(a, b, size); }
    SameLength(s, s', Ofs(a, size), Ofs(b, size), size);
    if size > 0 {
      Offsets(j, a, size);
      Offsets(j, b, size);
      SliceSwapped(s, s', Ofs(a, size), Ofs(b, size), size, Ofs(j, size));
    }
  }

  lemma SameLength(s: seq<byte>, s': seq<byte>, a: nat, b: nat, size: nat)
    requires BytesSwapped(s, s', a, b, size)
    ensures |s'| == |s|
  {
  }

  lemma Offsets(j: nat, k: nat, size: nat)
    requires size > 0
    ensures Ofs(j, size) == Ofs(k, size) <==> j == k
  {
    hide Ofs;
    if j != k { Beside(j, k, size); }
  }

  // ---- Heaps, with indices from 1 as in the program. ----

  ghost predicate Sized(e: seq<Elem>, size: nat) {
    forall k :: 0 <= k < |e| ==> |e[k]| == size
  }

  // Element j is at least its children among the first n.
  ghost predicate Dominates(cmp: Compare, e: seq<Elem>, n: nat, j: nat)
    requires 1 <= j <= n <= |e|
  {
    && (2 * j <= n ==> cmp(e[j - 1], e[2 * j - 1]) >= 0)
    && (2 * j + 1 <= n ==> cmp(e[j - 1], e[2 * j]) >= 0)
  }

  ghost predicate HeapFrom(cmp: Compare, e: seq<Elem>, n: nat, lo: nat) {
    1 <= lo && n <= |e| && forall j :: lo <= j <= n ==> Dominates(cmp, e, n, j)
  }

  // A heap but for element i, whose children its parent dominates too.
  ghost predicate HeapExcept(cmp: Compare, e: seq<Elem>, n: nat, lo: nat, i: nat) {
    && 1 <= lo <= i <= n <= |e|
    && (forall j :: lo <= j <= n && j != i ==> Dominates(cmp, e, n, j))
    && (lo <= i / 2 && 2 * i <= n ==> cmp(e[i / 2 - 1], e[2 * i - 1]) >= 0)
    && (lo <= i / 2 && 2 * i + 1 <= n ==> cmp(e[i / 2 - 1], e[2 * i]) >= 0)
  }

  // Swapping with the greater child moves the exception down.
  lemma FloatDown(cmp: Compare, size: nat, e: seq<Elem>, n: nat, lo: nat, i: nat, m: nat)
    requires TotalPreorder(cmp, size) && Sized(e, size) && HeapExcept(cmp, e, n, lo, i)
    requires (m == 2 * i || m == 2 * i + 1) && m <= n && cmp(e[m - 1], e[i - 1]) >= 0
    requires 2 * i <= n ==> cmp(e[m - 1], e[2 * i - 1]) >= 0
    requires 2 * i + 1 <= n ==> cmp(e[m - 1], e[2 * i]) >= 0
    ensures HeapExcept(cmp, Swapped(e, i - 1, m - 1), n, lo, m)
  {
    hide Swapped, TotalPreorder, Sized, Dominates;
    var e' := Swapped(e, i - 1, m - 1);
    assert Dominates(cmp, e, n, m);
    FloatAtTop(cmp, size, e, n, i, m);
    FloatBelow(cmp, e, n, i, m);
    forall j | lo <= j <= n && j != m && j != i
      ensures Dominates(cmp, e', n, j)
    {
      assert Dominates(cmp, e, n, j);
      if j == i / 2 { FloatAtParent(cmp, e, n, i, m); } else { FloatElsewhere(cmp, e, n, i, m, j); }
    }
  }

  // The element moved up was at least m's children.
  lemma FloatBelow(cmp: Compare, e: seq<Elem>, n: nat, i: nat, m: nat)
    requires 1 <= i <= n <= |e| && (m == 2 * i || m == 2 * i + 1) && m <= n && Dominates(cmp, e, n, m)
    ensures var e' := Swapped(e, i - 1, m - 1);
            && m / 2 == i && (2 * m <= n ==> cmp(e'[i - 1], e'[2 * m - 1]) >= 0)
            && (2 * m + 1 <= n ==> cmp(e'[i - 1], e'[2 * m]) >= 0)
  {
  }

  lemma FloatElsewhere(cmp: Compare, e: seq<Elem>, n: nat, i: nat, m: nat, j: nat)
    requires 1 <= i <= n <= |e| && (m == 2 * i || m == 2 * i + 1) && m <= n
    requires 1 <= j <= n && j != i && j != m && j != i / 2 && Dominates(cmp, e, n, j)
    ensures Dominates(cmp, Swapped(e, i - 1, m - 1), n, j)
  {
    assert 2 * j != i && 2 * j + 1 != i && 2 * j != m && 2 * j + 1 != m;
  }

  lemma FloatAtTop(cmp: Compare, size: nat, e: seq<Elem>, n: nat, i: nat, m: nat)
    requires 1 <= i <= n <= |e| && (m == 2 * i || m == 2 * i + 1) && m <= n && cmp(e[m - 1], e[i - 1]) >= 0
    requires 2 * i <= n ==> cmp(e[m - 1], e[2 * i - 1]) >= 0
    requires 2 * i + 1 <= n ==> cmp(e[m - 1], e[2 * i]) >= 0
    ensures Dominates(cmp, Swapped(e, i - 1, m - 1), n, i)
  {
  }

  lemma FloatAtParent(cmp: Compare, e: seq<Elem>, n: nat, i: nat, m: nat)
    requires 2 <= i <= n <= |e| && (m == 2 * i || m == 2 * i + 1) && m <= n
    requires Dominates(cmp, e, n, i / 2) && cmp(e[i / 2 - 1], e[m - 1]) >= 0
    ensures Dominates(cmp, Swapped(e, i - 1, m - 1), n, i / 2)
  {
  }

  // The root of a heap is its greatest element.
  lemma {:induction false} RootIsMax(cmp: Compare, size: nat, e: seq<Elem>, n: nat, k: nat)
    requires TotalPreorder(cmp, size) && Sized(e, size) && HeapFrom(cmp, e, n, 1) && 1 <= k <= n
    ensures cmp(e[k - 1], e[0]) <= 0
    decreases k
  {
    Reflexive(cmp, size, e[0]);
    if k > 1 {
      var j := k / 2;
      RootIsMax(cmp, size, e, n, j);
      assert Dominates(cmp, e, n, j);
      assert cmp(e[j - 1], e[k - 1]) >= 0;
      assert cmp(e[k - 1], e[j - 1]) <= 0;
    }
  }

  lemma Reflexive(cmp: Compare, size: nat, a: Elem)
    requires TotalPreorder(cmp, size) && |a| == size
    ensures cmp(a, a) == 0
  {
  }

  ghost predicate Sorted(cmp: Compare, e: seq<Elem>) {
    forall i, j :: 0 <= i < j < |e| ==> cmp(e[i], e[j]) <= 0
  }

  // The elements from i on are in order and none before is greater.
  ghost predicate Settled(cmp: Compare, e: seq<Elem>, i: nat) {
    && i <= |e| && Sorted(cmp, e[i..])
    && forall x, k :: x in e[..i] && i <= k < |e| ==> cmp(x, e[k]) <= 0
  }

  lemma SettledByMultiset(cmp: Compare, e: seq<Elem>, e': seq<Elem>, i: nat)
    requires Settled(cmp, e, i) && |e'| == |e| && e'[i..] == e[i..] && multiset(e'[..i]) == multiset(e[..i])
    ensures Settled(cmp, e', i)
  {
    forall x, k | x in e'[..i] && i <= k < |e'|
      ensures cmp(x, e'[k]) <= 0
    {
      assert x in multiset(e'[..i]);
      assert x in e[..i];
      assert e'[k] == e'[i..][k - i] == e[i..][k - i] == e[k];
    }
  }

  // The greatest of the first i elements goes to their end.
  lemma RootSettles(cmp: Compare, size: nat, e: seq<Elem>, i: nat)
    requires TotalPreorder(cmp, size) && Sized(e, size) && 1 < i <= |e|
    requires HeapFrom(cmp, e, i, 1) && Settled(cmp, e, i)
    ensures Settled(cmp, Swapped(e, 0, i - 1), i - 1) && HeapFrom(cmp, Swapped(e, 0, i - 1), i - 1, 2)
  {
    RestIsHeap(cmp, e, i);
    forall k | 0 <= k < i
      ensures cmp(e[k], e[0]) <= 0
    {
      RootIsMax(cmp, size, e, i, k + 1);
    }
    hide HeapFrom, TotalPreorder, Sized;
    OneMoreSettled(cmp, e, i);
  }

  lemma RestIsHeap(cmp: Compare, e: seq<Elem>, i: nat)
    requires 1 < i <= |e| && HeapFrom(cmp, e, i, 1)
    ensures HeapFrom(cmp, Swapped(e, 0, i - 1), i - 1, 2)
  {
    var e', n := Swapped(e, 0, i - 1), i - 1;
    forall j | 2 <= j <= n
      ensures Dominates(cmp, e', n, j)
    {
      assert Dominates(cmp, e, i, j);
    }
  }

  lemma OneMoreSettled(cmp: Compare, e: seq<Elem>, i: nat)
    requires 1 < i <= |e| && Settled(cmp, e, i) && forall k :: 0 <= k < i ==> cmp(e[k], e[0]) <= 0
    ensures Settled(cmp, Swapped(e, 0, i - 1), i - 1)
  {
    var e', n := Swapped(e, 0, i - 1), i - 1;
    assert e[..i][0] == e[0] && e[0] in e[..i];
    forall x, k | x in e'[..n] && n <= k < |e'|
      ensures cmp(x, e'[k]) <= 0
    {
      var j :| 0 <= j < n && e'[j] == x;
      var j' := if j == 0 then n else j;
      assert e[j'] == x && e[..i][j'] == x && x in e[..i];
      assert k > n ==> e'[k] == e[k];
      assert e'[n] == e[0];
    }
    var tail, tail' := e[i..], e'[n..];
    assert tail' == [e[0]] + tail;
    forall b | 0 <= b < |tail|
      ensures cmp(e[0], tail[b]) <= 0
    {
      assert tail[b] == e[i + b];
    }
    SortedCons(cmp, e[0], tail);
  }

  lemma SortedCons(cmp: Compare, x: Elem, e: seq<Elem>)
    requires Sorted(cmp, e) && forall b :: 0 <= b < |e| ==> cmp(x, e[b]) <= 0
    ensures Sorted(cmp, [x] + e)
  {
  }

  // ---- The program. ----

  // The same elements among the first n, the others and the bytes past the
  // last element as before.
  ghost predicate Shuffled(s: seq<byte>, s': seq<byte>, size: nat, cnt: nat, n: nat) {
    && n <= cnt && Ofs(cnt, size) <= |s| == |s'| && s'[Ofs(cnt, size)..] == s[Ofs(cnt, size)..]
    && Elems(s', size, cnt)[n..] == Elems(s, size, cnt)[n..]
    && multiset(Elems(s', size, cnt)[..n]) == multiset(Elems(s, size, cnt)[..n])
  }

  lemma ShuffledTwice(r: seq<byte>, s: seq<byte>, t: seq<byte>, size: nat, cnt: nat, n: nat)
    requires Shuffled(r, s, size, cnt, n) && Shuffled(s, t, size, cnt, n)
    ensures Shuffled(r, t, size, cnt, n)
  {
    hide Elems, Ofs;
  }

  lemma ElemsSized(s: seq<byte>, size: nat, cnt: nat)
    requires Ofs(cnt, size) <= |s|
    ensures Sized(Elems(s, size, cnt), size)
  {
    hide Ofs;
    forall k | 0 <= k < cnt
      ensures |At(s, size, k)| == size
    {
      Inside(k, cnt, size);
    }
  }

  method DoCompare(a: array<byte>, aIdx: nat, bIdx: nat, size: nat, compare: Compare, ghost cnt: nat) returns (r: int)
    requires 1 <= aIdx <= cnt && 1 <= bIdx <= cnt && Ofs(cnt, size) <= a.Length
    ensures r == compare(Elems(a[..], size, cnt)[aIdx - 1], Elems(a[..], size, cnt)[bIdx - 1])
  {
    hide Ofs;
    Inside(aIdx - 1, cnt, size);
    Inside(bIdx - 1, cnt, size);
    var p, q := Ofs(aIdx - 1, size), Ofs(bIdx - 1, size);
    assert a[..][p..p + size] == a[p..p + size] && a[..][q..q + size] == a[q..q + size];
    r := compare(a[p..p + size], a[q..q + size]);
  }

  lemma SwapShuffles(s: seq<byte>, s': seq<byte>, size: nat, cnt: nat, n: nat, a: nat, b: nat)
    requires a < n <= cnt && b < n && Ofs(cnt, size) <= |s| == |s'| && s'[Ofs(cnt, size)..] == s[Ofs(cnt, size)..]
    requires Elems(s', size, cnt) == Swapped(Elems(s, size, cnt), a, b)
    ensures Shuffled(s, s', size, cnt, n)
  {
    var e, e' := Elems(s, size, cnt), Elems(s', size, cnt);
    hide Elems, Ofs;
    assert e'[..n] == Swapped(e[..n], a, b);
    SwapKeeps(e[..n], a, b);
  }

  // One of the two tests in heapify: whether child c, if there is one, takes
  // over from max.
  method Greater(a: array<byte>, c: nat, max: nat, cnt: nat, size: nat, compare: Compare, ghost total: nat) returns (m: nat)
    requires 1 <= max <= cnt <= total && 1 <= c && Ofs(total, size) <= a.Length && TotalPreorder(compare, size)
    ensures m == max || (m == c && c <= cnt)
    ensures var e := Elems(a[..], size, total);
            compare(e[m - 1], e[max - 1]) >= 0 && (c <= cnt ==> compare(e[m - 1], e[c - 1]) >= 0)
  {
    hide *;
    ghost var e := Elems(a[..], size, total);
    ElemsSized(a[..], size, total);
    m := max;
    if c <= cnt {
      var r := DoCompare(a, c, max, size, compare, total);
      if r > 0 { m := c; }
      GreaterOfTwo(compare, size, e, c, max, r);
    } else {
      GreaterOfTwo(compare, size, e, max, max, compare(e[max - 1], e[max - 1]));
    }
  }

  lemma GreaterOfTwo(cmp: Compare, size: nat, e: seq<Elem>, c: nat, max: nat, r: int)
    requires TotalPreorder(cmp, size) && Sized(e, size) && 1 <= c <= |e| && 1 <= max <= |e|
    requires r == cmp(e[c - 1], e[max - 1])
    ensures var m := if r > 0 then c else max; cmp(e[m - 1], e[max - 1]) >= 0 && cmp(e[m - 1], e[c - 1]) >= 0
  {
    hide TotalPreorder;
    Reflexive(cmp, size, e[max - 1]);
    Reflexive(cmp, size, e[c - 1]);
    Opposite(cmp, size, e[c - 1], e[max - 1]);
  }

  // The index of the greatest among element i and its children.
  method MaxOfThree(a: array<byte>, i: nat, cnt: nat, size: nat, compare: Compare, ghost total: nat) returns (max: nat)
    requires 1 <= i <= cnt <= total && Ofs(total, size) <= a.Length && TotalPreorder(compare, size)
    ensures max == i || (max == 2 * i && max <= cnt) || (max == 2 * i + 1 && max <= cnt)
    ensures var e := Elems(a[..], size, total);
            && compare(e[max - 1], e[i - 1]) >= 0
            && (2 * i <= cnt ==> compare(e[max - 1], e[2 * i - 1]) >= 0)
            && (2 * i + 1 <= cnt ==> compare(e[max - 1], e[2 * i]) >= 0)
  {
    hide Elems, Ofs, TotalPreorder, Sized;
    ElemsSized(a[..], size, total);
    var max1 := Greater(a, 2 * i, i, cnt, size, compare, total);
    max := Greater(a, 2 * i + 1, max1, cnt, size, compare, total);
    ThreeWays(compare, size, Elems(a[..], size, total), i, cnt, max1, max);
  }

  lemma ThreeWays(cmp: Compare, size: nat, e: seq<Elem>, i: nat, cnt: nat, max1: nat, max: nat)
    requires TotalPreorder(cmp, size) && Sized(e, size) && 1 <= i <= cnt <= |e|
    requires 1 <= max1 <= cnt && 1 <= max <= cnt
    requires cmp(e[max1 - 1], e[i - 1]) >= 0 && (2 * i <= cnt ==> cmp(e[max1 - 1], e[2 * i - 1]) >= 0)
    requires cmp(e[max - 1], e[max1 - 1]) >= 0
    ensures cmp(e[max - 1], e[i - 1]) >= 0 && (2 * i <= cnt ==> cmp(e[max - 1], e[2 * i - 1]) >= 0)
  {
    hide TotalPreorder;
    Above(cmp, size, e[max - 1], e[max1 - 1], e[i - 1]);
    if 2 * i <= cnt { Above(cmp, size, e[max - 1], e[max1 - 1], e[2 * i - 1]); }
  }

  lemma Opposite(cmp: Compare, size: nat, a: Elem, b: Elem)
    requires TotalPreorder(cmp, size) && |a| == size && |b| == size
    ensures cmp(a, b) > 0 <==> cmp(b, a) < 0
    ensures cmp(a, b) >= 0 <==> cmp(b, a) <= 0
  {
  }

  lemma Above(cmp: Compare, size: nat, a: Elem, b: Elem, c: Elem)
    requires TotalPreorder(cmp, size) && |a| == size && |b| == size && |c| == size
    requires cmp(a, b) >= 0 && cmp(b, c) >= 0
    ensures cmp(a, c) >= 0
  {
    Opposite(cmp, size, a, b);
    Opposite(cmp, size, b, c);
    Opposite(cmp, size, a, c);
  }

  method Heapify(a: array<byte>, start: nat, cnt: nat, size: nat, compare: Compare, ghost total: nat)
    requires 1 <= start <= cnt <= total && Ofs(total, size) <= a.Length && TotalPreorder(compare, size)
    requires HeapFrom(compare, Elems(a[..], size, total), cnt, start + 1)
    modifies a
    ensures HeapFrom(compare, Elems(a[..], size, total), cnt, start)
    ensures Shuffled(old(a[..]), a[..], size, total, cnt)
  {
    hide TotalPreorder, Elems, Ofs, Shuffled;
    var i := start;
    ShuffledNot(a[..], size, total, cnt);
    NearlyHeap(compare, Elems(a[..], size, total), cnt, start);
    hide HeapFrom, HeapExcept;
    while true
      invariant start <= i <= cnt && HeapExcept(compare, Elems(a[..], size, total), cnt, start, i)
      invariant Shuffled(old(a[..]), a[..], size, total, cnt)
      decreases cnt - i
    {
      ghost var before := a[..];
      var max := FloatOnce(a, i, cnt, size, compare, total, start);
      ShuffledTwice(old(a[..]), before, a[..], size, total, cnt);
      if max == i {
        break;
      }
      i := max;
    }
  }

  // One pass of its loop: element i is in place if max is i, and max is next if not.
  method FloatOnce(a: array<byte>, i: nat, cnt: nat, size: nat, compare: Compare, ghost total: nat, ghost lo: nat)
    returns (max: nat)
    requires 1 <= lo <= i <= cnt <= total && Ofs(total, size) <= a.Length && TotalPreorder(compare, size)
    requires HeapExcept(compare, Elems(a[..], size, total), cnt, lo, i)
    modifies a
    ensures Shuffled(old(a[..]), a[..], size, total, cnt) && i <= max <= cnt
    ensures max == i ==> HeapFrom(compare, Elems(a[..], size, total), cnt, lo)
    ensures max != i ==> HeapExcept(compare, Elems(a[..], size, total), cnt, lo, max)
  {
    hide TotalPreorder, Elems, Ofs, Shuffled, Sized, HeapFrom, HeapExcept, Swapped;
    ghost var was := a[..];
    max := MaxOfThree(a, i, cnt, size, compare, total);
    ElemsSized(a[..], size, total);
    if max == i {
      WholeHeap(compare, Elems(a[..], size, total), cnt, lo, i);
      ShuffledNot(a[..], size, total, cnt);
    } else {
      FloatDown(compare, size, Elems(a[..], size, total), cnt, lo, i, max);
      DoSwap(a, i, max, size, total);
      SwapShuffles(was, a[..], size, total, cnt, i - 1, max - 1);
    }
  }

  lemma ShuffledNot(s: seq<byte>, size: nat, cnt: nat, n: nat)
    requires n <= cnt && Ofs(cnt, size) <= |s|
    ensures Shuffled(s, s, size, cnt, n)
  {
  }

  lemma NearlyHeap(cmp: Compare, e: seq<Elem>, n: nat, i: nat)
    requires 1 <= i <= n && HeapFrom(cmp, e, n, i + 1)
    ensures HeapExcept(cmp, e, n, i, i)
  {
  }

  lemma WholeHeap(cmp: Compare, e: seq<Elem>, n: nat, lo: nat, i: nat)
    requires HeapExcept(cmp, e, n, lo, i)
    requires 2 * i <= n ==> cmp(e[i - 1], e[2 * i - 1]) >= 0
    requires 2 * i + 1 <= n ==> cmp(e[i - 1], e[2 * i]) >= 0
    ensures HeapFrom(cmp, e, n, lo)
  {
  }

  method Sort(a: array<byte>, cnt: nat, size: nat, compare: Compare)
    requires size > 0 && Ofs(cnt, size) <= a.Length && TotalPreorder(compare, size)
    modifies a
    ensures Sorted(compare, Elems(a[..], size, cnt))
    ensures multiset(Elems(a[..], size, cnt)) == multiset(old(Elems(a[..], size, cnt)))
    ensures a[Ofs(cnt, size)..] == old(a[Ofs(cnt, size)..])
  {
    hide TotalPreorder, Elems, Ofs, Shuffled, HeapFrom, Settled, Swapped;
    ghost var was := a[..];
    BuildHeap(a, cnt, size, compare);
    NothingSettled(compare, Elems(a[..], size, cnt));
    var i: nat := cnt;
    while i > 1
      invariant i <= cnt && Shuffled(was, a[..], size, cnt, cnt)
      invariant HeapFrom(compare, Elems(a[..], size, cnt), i, 1) && Settled(compare, Elems(a[..], size, cnt), i)
    {
      ghost var before := a[..];
      SettleRoot(a, i, cnt, size, compare);
      ShuffledTwice(was, before, a[..], size, cnt, cnt);
      i := i - 1;
    }
    AllSettled(compare, Elems(a[..], size, cnt), i);
    AllShuffled(was, a[..], size, cnt);
    assert was[Ofs(cnt, size)..] == old(a[Ofs(cnt, size)..]) && a[..][Ofs(cnt, size)..] == a[Ofs(cnt, size)..];
  }

  // "Build a heap."
  method BuildHeap(a: array<byte>, cnt: nat, size: nat, compare: Compare)
    requires Ofs(cnt, size) <= a.Length && TotalPreorder(compare, size)
    modifies a
    ensures HeapFrom(compare, Elems(a[..], size, cnt), cnt, 1) && Shuffled(old(a[..]), a[..], size, cnt, cnt)
  {
    hide TotalPreorder, Elems, Ofs, Shuffled, HeapFrom;
    var i: nat := cnt / 2;
    LeavesAreHeaps(compare, Elems(a[..], size, cnt));
    ShuffledNot(a[..], size, cnt, cnt);
    while i > 0
      invariant i <= cnt / 2 && Shuffled(old(a[..]), a[..], size, cnt, cnt)
      invariant HeapFrom(compare, Elems(a[..], size, cnt), cnt, i + 1)
    {
      ghost var before := a[..];
      Heapify(a, i, cnt, size, compare, cnt);
      ShuffledTwice(old(a[..]), before, a[..], size, cnt, cnt);
      i := i - 1;
    }
  }

  // The greatest of the first i goes to place i, and the rest is made a heap again.
  method SettleRoot(a: array<byte>, i: nat, cnt: nat, size: nat, compare: Compare)
    requires 1 < i <= cnt && Ofs(cnt, size) <= a.Length && TotalPreorder(compare, size)
    requires HeapFrom(compare, Elems(a[..], size, cnt), i, 1) && Settled(compare, Elems(a[..], size, cnt), i)
    modifies a
    ensures HeapFrom(compare, Elems(a[..], size, cnt), i - 1, 1)
    ensures Settled(compare, Elems(a[..], size, cnt), i - 1)
    ensures Shuffled(old(a[..]), a[..], size, cnt, cnt)
  {
    hide TotalPreorder, Elems, Ofs, HeapFrom, Settled, Swapped, Shuffled;
    ElemsSized(a[..], size, cnt);
    RootSettles(compare, size, Elems(a[..], size, cnt), i);
    DoSwap(a, 1, i, size, cnt);
    ghost var mid := a[..];
    SwapShuffles(old(a[..]), mid, size, cnt, cnt, 0, i - 1);
    Heapify(a, 1, i - 1, size, compare, cnt);
    ShuffledWider(mid, a[..], size, cnt, i - 1);
    SettledStays(compare, mid, a[..], size, cnt, i - 1);
    ShuffledTwice(old(a[..]), mid, a[..], size, cnt, cnt);
  }

  lemma ShuffledWider(s: seq<byte>, s': seq<byte>, size: nat, cnt: nat, n: nat)
    requires Shuffled(s, s', size, cnt, n)
    ensures Shuffled(s, s', size, cnt, cnt)
  {
    var e, e' := Elems(s, size, cnt), Elems(s', size, cnt);
    hide Elems, Ofs;
    assert e == e[..n] + e[n..] && e' == e'[..n] + e'[n..];
    assert e[..cnt] == e && e'[..cnt] == e';
  }

  lemma SettledStays(cmp: Compare, s: seq<byte>, s': seq<byte>, size: nat, cnt: nat, n: nat)
    requires Shuffled(s, s', size, cnt, n) && Settled(cmp, Elems(s, size, cnt), n)
    ensures Settled(cmp, Elems(s', size, cnt), n)
  {
    hide Elems, Settled;
    SettledByMultiset(cmp, Elems(s, size, cnt), Elems(s', size, cnt), n);
  }

  lemma LeavesAreHeaps(cmp: Compare, e: seq<Elem>)
    ensures HeapFrom(cmp, e, |e|, |e| / 2 + 1)
  {
  }

  lemma NothingSettled(cmp: Compare, e: seq<Elem>)
    ensures Settled(cmp, e, |e|)
  {
  }

  lemma AllSettled(cmp: Compare, e: seq<Elem>, i: nat)
    requires Settled(cmp, e, i) && i <= 1
    ensures Sorted(cmp, e)
  {
    forall j, k | 0 <= j < k < |e|
      ensures cmp(e[j], e[k]) <= 0
    {
      if j < i {
        assert e[..i][j] == e[j] && e[j] in e[..i];
      } else {
        assert e[i..][j - i] == e[j] && e[i..][k - i] == e[k];
      }
    }
  }

  lemma AllShuffled(s: seq<byte>, s': seq<byte>, size: nat, cnt: nat)
    requires Shuffled(s, s', size, cnt, cnt)
    ensures multiset(Elems(s', size, cnt)) == multiset(Elems(s, size, cnt))
    ensures s'[Ofs(cnt, size)..] == s[Ofs(cnt, size)..]
  {
    var e, e' := Elems(s, size, cnt), Elems(s', size, cnt);
    assert e[..cnt] == e && e'[..cnt] == e';
  }

  // What binary_search needs of the array: first the elements the key comes
  // after, then those it ties with, then those it comes before.
  ghost predicate Ordered<Key>(cmp: (Key, Elem) -> int, key: Key, e: seq<Elem>) {
    forall j, k :: 0 <= j < k < |e| ==> InOrder(cmp(key, e[j]), cmp(key, e[k]))
  }

  predicate InOrder(x: int, y: int) {
    (x < 0 ==> y < 0) && (x <= 0 ==> y <= 0)
  }

  // An array sorted by a comparison of elements is in order for any element.
  lemma SortedIsOrdered(cmp: Compare, size: nat, key: Elem, e: seq<Elem>)
    requires TotalPreorder(cmp, size) && Sized(e, size) && |key| == size && Sorted(cmp, e)
    ensures Ordered(cmp, key, e)
  {
    forall j, k | 0 <= j < k < |e|
      ensures InOrder(cmp(key, e[j]), cmp(key, e[k]))
    {
      Follows(cmp, size, key, e[j], e[k]);
    }
  }

  lemma Follows(cmp: Compare, size: nat, key: Elem, x: Elem, y: Elem)
    requires TotalPreorder(cmp, size) && |key| == size && |x| == size && |y| == size && cmp(x, y) <= 0
    ensures InOrder(cmp(key, x), cmp(key, y))
  {
    Opposite(cmp, size, key, x);
    Opposite(cmp, size, key, y);
    assert cmp(y, key) <= 0 && cmp(x, y) <= 0 ==> cmp(x, key) <= 0;
  }

  // binary_search, over the offsets of elements: the offset of a match, or -1
  // when there is none. The key need not be an element.
  method BinarySearch<Key>(key: Key, a: array<byte>, cnt: nat, size: nat, compare: (Key, Elem) -> int) returns (r: int)
    requires Ofs(cnt, size) <= a.Length && Ordered(compare, key, Elems(a[..], size, cnt))
    ensures r != -1 ==> exists k :: 0 <= k < cnt && MatchAt(compare, key, Elems(a[..], size, cnt), size, k, r)
    ensures size > 0 ==> (r == -1 <==> forall k :: 0 <= k < cnt ==> compare(key, Elems(a[..], size, cnt)[k]) != 0)
    ensures size == 0 ==> r == -1
  {
    hide Elems, Ofs, Ordered;
    ghost var e := Elems(a[..], size, cnt);
    var first, last := 0, Ofs(cnt, size);
    ghost var lo: nat, hi: nat := 0, cnt;
    NoOffset(cnt, size);
    while first < last
      invariant lo <= hi <= cnt && first == Ofs(lo, size) && last == Ofs(hi, size)
      invariant Excluded(compare, key, e, lo, hi)
      decreases hi - lo
    {
      NoOffset(lo, size);
      NoOffset(hi, size);
      Between(lo, hi, size);
      var range := (last - first) / size;
      var middle := first + Ofs(range / 2, size);
      ghost var mid := lo + (hi - lo) / 2;
      AddOffsets(lo, range / 2, size);
      Inside(mid, cnt, size);
      assert a[middle..middle + size] == a[..][middle..middle + size];
      var cmp := compare(key, a[middle..middle + size]);
      if cmp < 0 {
        NotAbove(compare, key, e, lo, hi, mid);
        last, hi := middle, mid;
      } else if cmp > 0 {
        NotBelow(compare, key, e, lo, hi, mid);
        AddOffsets(mid, 1, size);
        OneElement(size);
        first, lo := middle + size, mid + 1;
      } else {
        assert MatchAt(compare, key, e, size, mid, middle);
        return middle;
      }
    }
    if lo < hi { Inside(lo, hi, size); }
    r := -1;
  }

  ghost predicate MatchAt<Key>(cmp: (Key, Elem) -> int, key: Key, e: seq<Elem>, size: nat, k: nat, r: int)
    requires k < |e|
  {
    r == Ofs(k, size) && cmp(key, e[k]) == 0
  }

  // No match outside lo to hi.
  ghost predicate Excluded<Key>(cmp: (Key, Elem) -> int, key: Key, e: seq<Elem>, lo: nat, hi: nat) {
    forall k :: 0 <= k < |e| && !(lo <= k < hi) ==> cmp(key, e[k]) != 0
  }

  lemma NotAbove<Key>(cmp: (Key, Elem) -> int, key: Key, e: seq<Elem>, lo: nat, hi: nat, mid: nat)
    requires Ordered(cmp, key, e) && Excluded(cmp, key, e, lo, hi) && mid < |e| && cmp(key, e[mid]) < 0
    ensures Excluded(cmp, key, e, lo, mid)
  {
    assert forall k :: mid < k < |e| ==> InOrder(cmp(key, e[mid]), cmp(key, e[k]));
  }

  lemma NotBelow<Key>(cmp: (Key, Elem) -> int, key: Key, e: seq<Elem>, lo: nat, hi: nat, mid: nat)
    requires Ordered(cmp, key, e) && Excluded(cmp, key, e, lo, hi) && mid < |e| && cmp(key, e[mid]) > 0
    ensures Excluded(cmp, key, e, mid + 1, hi)
  {
    assert forall k :: 0 <= k < mid ==> InOrder(cmp(key, e[k]), cmp(key, e[mid]));
  }

  // (last - first) / size counts the elements between.
  lemma Between(lo: nat, hi: nat, size: nat)
    requires size > 0 && Ofs(lo, size) < Ofs(hi, size)
    ensures lo < hi && (Ofs(hi, size) - Ofs(lo, size)) / size == hi - lo
  {
    if hi < lo { Inside(hi, lo, size); }
    var d := hi - lo;
    assert lo <= hi ==> hi * size - lo * size == d * size;
    Quotient(d, size);
  }

  lemma Quotient(d: nat, size: nat)
    requires size > 0
    ensures d * size / size == d
  {
    assert (d + 1) * size == d * size + size;
    Arithmetic.DivUnique(d * size, size, d);
  }

  lemma AddOffsets(j: nat, k: nat, size: nat)
    ensures Ofs(j, size) + Ofs(k, size) == Ofs(j + k, size)
  {
  }

  lemma NoOffset(k: nat, size: nat)
    ensures Ofs(0, size) == 0 && (size == 0 ==> Ofs(k, size) == 0)
  {
  }

  lemma OneElement(size: nat)
    ensures Ofs(1, size) == size
  {
  }
}
