// strtok_r, and the tokens of a command line.
module Tokens {
  import opened Bytes

  // A run of non-delimiters that cannot be made longer at either end.
  ghost predicate TokenAt(s: seq<byte>, delims: set<byte>, i: int, j: int) {
    && 0 <= i < j <= |s| && (forall k :: i <= k < j ==> s[k] !in delims)
    && (i == 0 || s[i - 1] in delims) && (j == |s| || s[j] in delims)
  }

  // The first position from p on that is not, or is, a delimiter.
  function Skip(s: seq<byte>, delims: set<byte>, p: nat): (q: nat)
    requires p <= |s|
    ensures p <= q <= |s| && (forall k :: p <= k < q ==> s[k] in delims) && (q == |s| || s[q] !in delims)
    decreases |s| - p
  {
    if p < |s| && s[p] in delims then Skip(s, delims, p + 1) else p
  }

  function Upto(s: seq<byte>, delims: set<byte>, p: nat): (q: nat)
    requires p <= |s|
    ensures p <= q <= |s| && (forall k :: p <= k < q ==> s[k] !in delims) && (q == |s| || s[q] in delims)
    decreases |s| - p
  {
    if p < |s| && s[p] !in delims then Upto(s, delims, p + 1) else p
  }

  datatype Span = Span(start: nat, stop: nat)

  // Where the tokens from position p on start and end.
  function Spans(s: seq<byte>, delims: set<byte>, p: nat): seq<Span>
    requires p <= |s|
    decreases |s| - p
  {
    var i := Skip(s, delims, p);
    if i == |s| then []
    else
      var j := Upto(s, delims, i);
      [Span(i, j)] + Spans(s, delims, j)
  }

  // From a token's boundary on, they are all the maximal runs, in order.
  lemma {:induction false} SpansAreTokens(s: seq<byte>, delims: set<byte>, p: nat, i: nat, j: nat)
    requires p <= |s| && (p == 0 || p == |s| || s[p] in delims)
    ensures Span(i, j) in Spans(s, delims, p) <==> p <= i && TokenAt(s, delims, i, j)
    decreases |s| - p
  {
    var a := Skip(s, delims, p);
    if a < |s| {
      var b := Upto(s, delims, a);
      SpansAreTokens(s, delims, b, i, j);
      assert a == p || s[a - 1] in delims;
      assert TokenAt(s, delims, a, b);
      assert Spans(s, delims, p) == [Span(a, b)] + Spans(s, delims, b);
      if p <= i < a { NoTokenOn(s, delims, i, j); }
      if a < i < b { NoTokenInside(s, delims, a, b, i, j); }
      if i == a && j != b { OneEnd(s, delims, a, b, j); }
    } else if p <= i < |s| {
      NoTokenOn(s, delims, i, j);
    }
  }

  lemma NoTokenOn(s: seq<byte>, delims: set<byte>, i: nat, j: int)
    requires i < |s| && s[i] in delims
    ensures !TokenAt(s, delims, i, j)
  {
  }

  lemma NoTokenInside(s: seq<byte>, delims: set<byte>, i: int, j: int, k: int, m: int)
    requires TokenAt(s, delims, i, j) && i < k < j
    ensures !TokenAt(s, delims, k, m)
  {
    assert s[k - 1] !in delims;
  }

  lemma OneEnd(s: seq<byte>, delims: set<byte>, i: int, j: int, m: int)
    requires TokenAt(s, delims, i, j) && m != j
    ensures !TokenAt(s, delims, i, m)
  {
    if i < m < j { assert s[m] !in delims; }
    assert j < |s| ==> s[j] in delims;
  }

  lemma {:induction false} SpansInOrder(s: seq<byte>, delims: set<byte>, p: nat, k: nat)
    requires p <= |s| && k < |Spans(s, delims, p)|
    ensures p <= Spans(s, delims, p)[k].start < Spans(s, delims, p)[k].stop <= |s|
    ensures k + 1 < |Spans(s, delims, p)| ==> Spans(s, delims, p)[k].stop < Spans(s, delims, p)[k + 1].start
    decreases |s| - p
  {
    var a := Skip(s, delims, p);
    var b := Upto(s, delims, a);
    if k > 0 {
      SpansInOrder(s, delims, b, k - 1);
    } else if |Spans(s, delims, p)| > 1 {
      SpansInOrder(s, delims, b, 0);
      assert Skip(s, delims, b) > b;
    }
  }

  // ---- strtok_r on a buffer that holds a string of length n and its null. ----

  // One call: s is the start or -1 for the null pointer, and so is the token.
  // The buffer from the starting position on holds what is left of line.
  method StrtokR(buf: array<byte>, s: int, delims: set<byte>, save: nat, ghost line: seq<byte>)
    returns (token: int, save': nat)
    requires |line| < buf.Length && 0 !in line && 0 !in delims && -1 <= s
    requires var p := if s == -1 then save else s; p <= |line| && buf[p..|line| + 1] == line[p..] + [0]
    modifies buf
    ensures var p := if s == -1 then save else s;
            var a := Skip(line, delims, p);
            && (if a == |line| then token == -1 && save' == a && buf[..] == old(buf[..])
                else
                  var b := Upto(line, delims, a);
                  && token == a && save' == (if b < |line| then b + 1 else b)
                  && buf[..] == old(buf[..])[b := 0])
    ensures save' <= |line| && buf[save'..|line| + 1] == line[save'..] + [0]
  {
    var p := if s == -1 then save else s;
    ghost var was := buf[..];
    var i := SkipDelims(buf, delims, p, line);
    if buf[i] == 0 {
      return -1, i;
    }
    token := i;
    i := SkipToken(buf, delims, i, line);
    save' := i;
    if buf[i] != 0 {
      buf[i] := 0;
      save' := i + 1;
    }
    assert buf[..] == was[i := 0];
  }

  // The two scanning loops.
  method SkipDelims(buf: array<byte>, delims: set<byte>, p: nat, ghost line: seq<byte>) returns (i: nat)
    requires p <= |line| < buf.Length && 0 !in line && 0 !in delims && buf[p..|line| + 1] == line[p..] + [0]
    ensures i == Skip(line, delims, p) && buf[i..|line| + 1] == line[i..] + [0] && (buf[i] == 0 <==> i == |line|)
  {
    i := p;
    while buf[i] in delims
      invariant p <= i <= |line| && Skip(line, delims, i) == Skip(line, delims, p)
      invariant buf[i..|line| + 1] == line[i..] + [0]
      decreases |line| - i
    {
      HeadOf(buf[..], line, i);
      i := i + 1;
    }
    HeadOf(buf[..], line, i);
  }

  method SkipToken(buf: array<byte>, delims: set<byte>, p: nat, ghost line: seq<byte>) returns (i: nat)
    requires p <= |line| < buf.Length && 0 !in line && 0 !in delims && buf[p..|line| + 1] == line[p..] + [0]
    ensures i == Upto(line, delims, p) && buf[i..|line| + 1] == line[i..] + [0] && (buf[i] == 0 <==> i == |line|)
  {
    i := p;
    HeadOf(buf[..], line, i);
    while buf[i] !in delims && buf[i] != 0
      invariant p <= i <= |line| && Upto(line, delims, i) == Upto(line, delims, p)
      invariant buf[i..|line| + 1] == line[i..] + [0] && (buf[i] == 0 <==> i == |line|)
      invariant i < |line| ==> buf[i] == line[i]
      decreases |line| - i
    {
      HeadOf(buf[..], line, i);
      i := i + 1;
      HeadOf(buf[..], line, i);
    }
  }

  lemma HeadOf(buf: seq<byte>, line: seq<byte>, i: nat)
    requires i <= |line| < |buf| && 0 !in line && buf[i..|line| + 1] == line[i..] + [0]
    ensures buf[i] == (if i < |line| then line[i] else 0) && (buf[i] == 0 <==> i == |line|)
    ensures i < |line| ==> buf[i + 1..|line| + 1] == line[i + 1..] + [0]
  {
    assert buf[i] == buf[i..|line| + 1][0];
    if i < |line| {
      assert buf[i + 1..|line| + 1] == buf[i..|line| + 1][1..];
    }
  }
}
