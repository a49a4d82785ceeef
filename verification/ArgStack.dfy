// The part of load that splits a command line and builds the initial stack of
// a user program in the top page of its address space.
module ArgStack {
  import opened Bytes
  import opened Tokens

  const PAGE_BASE: nat := 0xbfff_f000  // where the stack's page starts

  const SPACES: set<byte> := {32}

  function Words(line: seq<byte>): (w: seq<seq<byte>>)
    ensures |w| == |Spans(line, SPACES, 0)|
  {
    WordsOf(line, Spans(line, SPACES, 0))
  }

  function WordsOf(line: seq<byte>, spans: seq<Span>): (w: seq<seq<byte>>)
    ensures |w| == |spans|
    ensures forall k :: 0 <= k < |spans| ==> w[k] == Text(line, spans[k])
  {
    seq(|spans|, k requires 0 <= k < |spans| => Text(line, spans[k]))
  }

  function Text(line: seq<byte>, t: Span): seq<byte> {
    if t.start <= t.stop <= |line| then line[t.start..t.stop] else []
  }

  // The words are the longest runs of bytes other than spaces, in their order.
  lemma WordsAreRuns(line: seq<byte>, i: nat, j: nat)
    ensures Span(i, j) in Spans(line, SPACES, 0) <==>
              && i < j <= |line| && (forall k :: i <= k < j ==> line[k] != ' ' as int)
              && (i == 0 || line[i - 1] == ' ' as int) && (j == |line| || line[j] == ' ' as int)
    ensures |Words(line)| == |Spans(line, SPACES, 0)|
    ensures forall k :: 0 <= k < |Words(line)| ==>
              var t := Spans(line, SPACES, 0)[k]; Words(line)[k] == Text(line, t) && t in Spans(line, SPACES, 0)
  {
    SpansAreTokens(line, SPACES, 0, i, j);
  }

  // ---- What the program finds on its stack. ----

  function WordAt(page: seq<byte>, at: nat): word
    requires at + 4 <= |page|
  {
    FromLe32(page[at..at + 4])
  }

  // Offset a holds s and a null.
  ghost predicate StringAt(page: seq<byte>, a: nat, s: seq<byte>) {
    a + |s| < |page| && page[a..a + |s|] == s && page[a + |s|] == 0
  }

  // Where the i-th argument is: the strings fill the top of the page, in order.
  function Place(args: seq<seq<byte>>, i: nat): int
    decreases |args| - i
  {
    if i >= |args| then 4096 else Place(args, i + 1) - (|args[i]| + 1)
  }

  // A null return address, argc, argv, and argv[0] to argv[argc].
  ghost predicate Arguments(page: seq<byte>, esp: nat, args: seq<seq<byte>>) {
    && |page| == 4096 && (PAGE_BASE + esp) % 4 == 0 && esp + 16 + 4 * |args| <= Place(args, 0) <= 4096
    && WordAt(page, esp) == 0 && WordAt(page, esp + 4) == |args| && WordAt(page, esp + 8) == PAGE_BASE + esp + 12
    && (forall i :: 0 <= i < |args| ==> ArgumentAt(page, esp, args, i))
    && WordAt(page, esp + 12 + 4 * |args|) == 0
  }

  ghost predicate ArgumentAt(page: seq<byte>, esp: nat, args: seq<seq<byte>>, i: nat)
    requires i < |args| && |page| == 4096 && esp + 16 + 4 * |args| <= 4096
  {
    && Place(args, i) >= 0 && WordAt(page, esp + 12 + 4 * i) == PAGE_BASE + Place(args, i)
    && StringAt(page, Place(args, i), args[i])
  }

  lemma {:induction false} PlacesUp(args: seq<seq<byte>>, i: nat, j: nat)
    requires i <= j <= |args|
    ensures Place(args, i) <= Place(args, j) <= 4096
    ensures i < j ==> Place(args, i) + |args[i]| + 1 <= Place(args, j)
    decreases |args| - i
  {
    if i < |args| {
      PlacesUp(args, i + 1, if j <= i then i + 1 else j);
    }
  }

  // ---- Tokenizing. ----

  // The first len bytes of the buffer hold the tokens found so far, each null-terminated.
  ghost predicate Cut(buf: seq<byte>, line: seq<byte>, spans: seq<Span>, len: nat) {
    |line| < |buf| && forall k :: 0 <= k < |spans| ==> CutAt(buf, line, spans[k], len)
  }

  ghost predicate CutAt(buf: seq<byte>, line: seq<byte>, t: Span, len: nat)
    requires |line| < |buf|
  {
    && t.start < t.stop <= |line| && buf[t.start..t.stop] == line[t.start..t.stop] && buf[t.stop] == 0
    && t.stop <= len
  }

  // A null stored further on leaves them alone.
  lemma CutStays(buf: seq<byte>, line: seq<byte>, spans: seq<Span>, len: nat, b: nat)
    requires Cut(buf, line, spans, len) && len <= b < |buf|
    ensures Cut(buf[b := 0], line, spans, b)
  {
    forall k | 0 <= k < |spans|
      ensures CutAt(buf[b := 0], line, spans[k], b)
    {
      assert CutAt(buf, line, spans[k], len);
      assert buf[b := 0][spans[k].start..spans[k].stop] == buf[spans[k].start..spans[k].stop];
    }
  }

  // Tokens start anew after the delimiter that ended one.
  lemma NextSpans(line: seq<byte>, p: nat)
    requires p <= |line| && Skip(line, SPACES, p) < |line|
    ensures var a := Skip(line, SPACES, p);
            var b := Upto(line, SPACES, a);
            var save := if b < |line| then b + 1 else b;
            a < b && Spans(line, SPACES, p) == [Span(a, b)] + Spans(line, SPACES, save)
  {
  }

  // What the buffer and the saved position say after a call of strtok_r from
  // position at, when the tokens before are `done`.
  ghost predicate Splitting(buf: seq<byte>, line: seq<byte>, done: seq<Span>, at: nat, token: int, save: nat) {
    && at <= |line| && save <= |line| < |buf| && done + Spans(line, SPACES, at) == Spans(line, SPACES, 0)
    && buf[save..|line| + 1] == line[save..] + [0]
    && var a := Skip(line, SPACES, at);
       if a == |line| then token == -1 && Cut(buf, line, done, |line|)
       else
         var b := Upto(line, SPACES, a);
         token == a && save == (if b < |line| then b + 1 else b) && Cut(buf, line, done + [Span(a, b)], b)
  }

  // The token that has just been cut off.
  lemma CutHere(buf: seq<byte>, line: seq<byte>, at: nat, a: nat, b: nat)
    requires at <= a < b <= |line| < |buf| && buf[at..|line| + 1] == line[at..] + [0]
    ensures CutAt(buf[b := 0], line, Span(a, b), b)
  {
    forall k | a <= k < b
      ensures buf[k] == line[k]
    {
      assert buf[at..|line| + 1][k - at] == (line[at..] + [0])[k - at];
    }
  }

  // One more call.
  lemma SplitOn(buf: seq<byte>, buf': seq<byte>, line: seq<byte>, done: seq<Span>, at: nat, token': int, save': nat)
    requires |line| < |buf| && at <= |line| && done + Spans(line, SPACES, at) == Spans(line, SPACES, 0)
    requires Cut(buf, line, done, at) && buf[at..|line| + 1] == line[at..] + [0]
    requires var a := Skip(line, SPACES, at);
             if a == |line| then token' == -1 && save' == a && buf' == buf
             else
               var b := Upto(line, SPACES, a);
               && token' == a && save' == (if b < |line| then b + 1 else b) && buf' == buf[b := 0]
    requires buf'[save'..|line| + 1] == line[save'..] + [0]
    ensures Splitting(buf', line, done, at, token', save')
  {
    var a := Skip(line, SPACES, at);
    if a < |line| {
      var b := Upto(line, SPACES, a);
      NextSpans(line, at);
      CutStays(buf, line, done, at, b);
      CutHere(buf, line, at, a, b);
    } else {
      assert Cut(buf, line, done, |line|) by {
        forall k | 0 <= k < |done|
          ensures CutAt(buf, line, done[k], |line|)
        {
          assert CutAt(buf, line, done[k], at);
        }
      }
    }
  }

  // strlcpy (fn_copy, file_name, strlen (file_name) + 1).
  method CopyLine(line: seq<byte>, fnCopy: array<byte>)
    requires |line| < fnCopy.Length
    modifies fnCopy
    ensures fnCopy[0..|line| + 1] == line[0..] + [0]
  {
    var i := 0;
    while i < |line|
      invariant i <= |line| && fnCopy[..i] == line[..i]
    {
      fnCopy[i] := line[i];
      i := i + 1;
    }
    fnCopy[|line|] := 0;
  }

  // The token loop.
  method Tokenize(line: seq<byte>, fnCopy: array<byte>) returns (parsed: seq<nat>)
    requires |line| < fnCopy.Length && 0 !in line
    modifies fnCopy
    ensures |parsed| == |Spans(line, SPACES, 0)|
    ensures forall k :: 0 <= k < |parsed| ==> parsed[k] == Spans(line, SPACES, 0)[k].start
    ensures Cut(fnCopy[..], line, Spans(line, SPACES, 0), |line|)
  {
    hide Cut, Skip, Upto, Spans, Splitting;
    CopyLine(line, fnCopy);
    parsed := [];
    ghost var done: seq<Span>, at, before := [], 0, fnCopy[..];
    assert done + Spans(line, SPACES, 0) == Spans(line, SPACES, 0);
    var token, save := StrtokR(fnCopy, 0, SPACES, 0, line);
    NothingCut(before, line);
    SplitOn(before, fnCopy[..], line, done, at, token, save);
    while token != -1
      invariant 0 <= at <= |line| && Splitting(fnCopy[..], line, done, at, token, save)
      invariant |parsed| == |done| && forall k :: 0 <= k < |done| ==> parsed[k] == done[k].start
      decreases |line| - at
    {
      done, at := SplitStep(fnCopy[..], line, done, at, token, save);
      parsed := parsed + [token];
      before := fnCopy[..];
      token, save := StrtokR(fnCopy, -1, SPACES, save, line);
      SplitOn(before, fnCopy[..], line, done, at, token, save);
    }
    AllSplit(fnCopy[..], line, done, at, save);
  }

  lemma NothingCut(buf: seq<byte>, line: seq<byte>)
    requires |line| < |buf|
    ensures Cut(buf, line, [], 0)
  {
  }

  lemma AllSplit(buf: seq<byte>, line: seq<byte>, done: seq<Span>, at: nat, save: nat)
    requires Splitting(buf, line, done, at, -1, save)
    ensures done == Spans(line, SPACES, 0) && Cut(buf, line, done, |line|)
  {
    assert Spans(line, SPACES, at) == [];
    assert done + [] == done;
  }

  lemma SplitStep(buf: seq<byte>, line: seq<byte>, done: seq<Span>, at: nat, token: int, save: nat)
    returns (done': seq<Span>, at': nat)
    requires Splitting(buf, line, done, at, token, save) && token != -1
    ensures at < at' == save <= |line| < |buf| && |done'| == |done| + 1 && done' == done + [done'[|done|]]
    ensures done'[|done|].start == token
    ensures done' + Spans(line, SPACES, at') == Spans(line, SPACES, 0) && Cut(buf, line, done', at')
    ensures buf[at'..|line| + 1] == line[at'..] + [0]
  {
    NextSpans(line, at);
    var a := Skip(line, SPACES, at);
    var b := Upto(line, SPACES, a);
    done', at' := done + [Span(a, b)], save;
    assert done + ([Span(a, b)] + Spans(line, SPACES, save)) == done' + Spans(line, SPACES, save);
    forall k | 0 <= k < |done'|
      ensures CutAt(buf, line, done'[k], save)
    {
      assert CutAt(buf, line, done'[k], b);
    }
  }

  // ---- Building the stack. ----

  ghost predicate WordsFrom(page: seq<byte>, at: nat, ws: seq<word>) {
    at + 4 * |ws| <= |page| && forall k :: 0 <= k < |ws| ==> WordAt(page, at + 4 * k) == ws[k]
  }

  ghost predicate StringsFrom(page: seq<byte>, args: seq<seq<byte>>, i: nat) {
    forall k :: i <= k < |args| ==> Place(args, k) >= 0 && StringAt(page, Place(args, k), args[k])
  }

  // Everything above the new bytes stays.
  lemma WordPushed(page: seq<byte>, at: nat, ws: seq<word>, w: word)
    requires WordsFrom(page, at + 4, ws) && at + 4 <= |page|
    ensures WordsFrom(Splice(page, at, Le32(w)), at, [w] + ws)
  {
    var page' := Splice(page, at, Le32(w));
    SpliceSlices(page, at, Le32(w));
    Le32RoundTrip(w);
    forall k | 0 <= k < |ws| + 1
      ensures WordAt(page', at + 4 * k) == ([w] + ws)[k]
    {
      if k > 0 {
        assert WordAt(page, at + 4 + 4 * (k - 1)) == ws[k - 1];
        SpliceElsewhere(page, at, Le32(w), at + 4 * k, at + 4 * k + 4);
      }
    }
  }

  lemma StringsStay(page: seq<byte>, args: seq<seq<byte>>, i: nat, at: nat, data: seq<byte>)
    requires StringsFrom(page, args, i) && at + |data| <= Place(args, i) && at + |data| <= |page|
    ensures StringsFrom(Splice(page, at, data), args, i)
  {
    forall k | i <= k < |args|
      ensures Place(args, k) >= 0 && StringAt(Splice(page, at, data), Place(args, k), args[k])
    {
      PlacesUp(args, i, k);
      var a := Place(args, k);
      SpliceElsewhere(page, at, data, a, a + |args[k]|);
    }
  }

  lemma StringPushed(page: seq<byte>, args: seq<seq<byte>>, i: nat)
    requires i < |args| && Place(args, i) >= 0 && |page| == 4096 && StringsFrom(page, args, i + 1)
    ensures Place(args, i + 1) <= 4096
    ensures StringsFrom(Splice(page, Place(args, i), args[i] + [0]), args, i)
  {
    PlacesUp(args, i, i + 1);
    var a, data := Place(args, i), args[i] + [0];
    StringsStay(page, args, i + 1, a, data);
    SpliceSlices(page, a, data);
    assert Splice(page, a, data)[a..a + |data|][..|args[i]|] == args[i];
  }

  // The tokens, with a null each, are no longer than the line and its null.
  lemma {:induction false} SpansFit(line: seq<byte>, p: nat)
    requires p <= |line|
    ensures var args := WordsOf(line, Spans(line, SPACES, p));
            Place(args, 0) >= 4096 - (|line| + 1 - p) && 2 * |args| <= |line| + 1 - p
    decreases |line| - p
  {
    var spans := Spans(line, SPACES, p);
    hide WordsOf, Place;
    if spans == [] {
      NoWordsLeft(line);
    } else {
      var a, b, save := FirstSpan(line, p);
      hide Spans;
      SpansFit(line, save);
      FirstWord(line, Span(a, b), Spans(line, SPACES, save));
    }
  }

  lemma NoWordsLeft(line: seq<byte>)
    ensures WordsOf(line, []) == [] && Place([], 0) == 4096
  {
  }

  lemma FirstSpan(line: seq<byte>, p: nat) returns (a: nat, b: nat, save: nat)
    requires p <= |line| && Spans(line, SPACES, p) != []
    ensures p <= a < b <= |line| && save == (if b < |line| then b + 1 else b)
    ensures Spans(line, SPACES, p) == [Span(a, b)] + Spans(line, SPACES, save)
  {
    NextSpans(line, p);
    a := Skip(line, SPACES, p);
    b := Upto(line, SPACES, a);
    save := if b < |line| then b + 1 else b;
  }

  lemma PlaceStep(args: seq<seq<byte>>, i: nat)
    requires i < |args|
    ensures Place(args, i) == Place(args, i + 1) - (|args[i]| + 1)
  {
  }

  lemma FirstWord(line: seq<byte>, t: Span, rest: seq<Span>)
    requires t.start < t.stop <= |line|
    ensures Place(WordsOf(line, [t] + rest), 0) == Place(WordsOf(line, rest), 0) - (t.stop - t.start + 1)
  {
    var w, words := Text(line, t), WordsOf(line, rest);
    assert WordsOf(line, [t] + rest) == [w] + words;
    hide WordsOf;
    PlaceTail([w], words, 0);
    PlaceStep([w] + words, 0);
  }

  lemma {:induction false} PlaceTail(head: seq<seq<byte>>, rest: seq<seq<byte>>, i: nat)
    requires i <= |rest|
    ensures Place(head + rest, |head| + i) == Place(rest, i)
    decreases |rest| - i
  {
    if i < |rest| {
      PlaceTail(head, rest, i + 1);
    }
  }

  class UserStack {
    const page: array<byte>
    var esp: nat                 // offset of the stack pointer in the page

    // setup_stack: a zeroed page, and the pointer past its end.
    constructor ()
      ensures fresh(page) && page.Length == 4096 && esp == 4096 && page[..] == Zeros(4096)
    {
      page := new byte[4096](_ => 0);
      esp := 4096;
    }

    method Push(data: seq<byte>)
      requires |data| <= esp <= page.Length
      modifies this, page
      ensures esp == old(esp) - |data| && page[..] == Splice(old(page[..]), esp, data)
    {
      esp := esp - |data|;
      ghost var was := page[..];
      forall k | 0 <= k < |data| {
        page[esp + k] := data[k];
      }
      assert page[..] == Splice(was, esp, data);
    }

    method PushWord(w: word, ghost ws: seq<word>, ghost args: seq<seq<byte>>)
      requires 4 <= esp <= page.Length && WordsFrom(page[..], esp, ws)
      requires StringsFrom(page[..], args, 0) && esp <= Place(args, 0)
      modifies this, page
      ensures esp == old(esp) - 4 && WordsFrom(page[..], esp, [w] + ws) && StringsFrom(page[..], args, 0)
    {
      hide WordsFrom, StringsFrom, Le32, Place;
      WordPushed(page[..], esp - 4, ws, w);
      StringsStay(page[..], args, 0, esp - 4, Le32(w));
      Push(Le32(w));
    }

    // Step 1: the strings, the last one first, each with its null.
    method PushStrings(fnCopy: array<byte>, parsed: seq<nat>, line: seq<byte>) returns (tokenAddress: seq<nat>)
      requires page.Length == 4096 && esp == 4096 && fnCopy != page && 0 !in line
      requires |parsed| == |Spans(line, SPACES, 0)|
      requires forall k :: 0 <= k < |parsed| ==> parsed[k] == Spans(line, SPACES, 0)[k].start
      requires Cut(fnCopy[..], line, Spans(line, SPACES, 0), |line|) && |line| < 4096
      modifies this, page
      ensures var args := Words(line);
              && esp == Place(args, 0) && StringsFrom(page[..], args, 0)
              && |tokenAddress| == |args| && forall k :: 0 <= k < |args| ==> tokenAddress[k] == PAGE_BASE + Place(args, k)
    {
      hide Spans, StringsFrom, Cut, Place;
      ghost var args, buf := Words(line), fnCopy[..];
      SpansFit(line, 0);
      tokenAddress := [];
      var i := |parsed|;
      NoStrings(page[..], args);
      while i > 0
        invariant 0 <= i <= |parsed| == |args| && fnCopy[..] == buf
        invariant esp == Place(args, i) && StringsFrom(page[..], args, i)
        invariant |tokenAddress| == |args| - i
        invariant forall k :: i <= k < |args| ==> tokenAddress[k - i] == PAGE_BASE + Place(args, k)
      {
        i := i - 1;
        PushString(fnCopy, parsed[i], line, i);
        assert fnCopy[..] == buf;
        tokenAddress := [PAGE_BASE + esp] + tokenAddress;
      }
    }

    method PushString(fnCopy: array<byte>, token: nat, ghost line: seq<byte>, ghost i: nat)
      requires page.Length == 4096 && fnCopy != page && 0 !in line && |line| < 4096
      requires i < |Spans(line, SPACES, 0)| && token == Spans(line, SPACES, 0)[i].start
      requires Cut(fnCopy[..], line, Spans(line, SPACES, 0), |line|)
      requires esp == Place(Words(line), i + 1) && StringsFrom(page[..], Words(line), i + 1)
      modifies this, page
      ensures esp == Place(Words(line), i) && StringsFrom(page[..], Words(line), i)
    {
      hide Spans, StringsFrom, Cut, Place;
      ghost var args := Words(line);
      SpansFit(line, 0);
      PlacesUp(args, 0, i);
      PlacesUp(args, i, i + 1);
      PlaceStep(args, i);
      TokenText(fnCopy[..], line, i);
      assert fnCopy[..][token..] == fnCopy[token..];
      var text := CString(fnCopy[token..]);
      StringPushed(page[..], args, i);
      Push(text + [0]);
    }

    // Step 3: the addresses of the strings below a null, again the last one first.
    method PushAddresses(tokenAddress: seq<nat>, ghost args: seq<seq<byte>>) returns (ghost ws: seq<word>)
      requires forall k :: 0 <= k < |tokenAddress| ==> tokenAddress[k] < 0x1_0000_0000
      requires page.Length == 4096 && 4 * |tokenAddress| + 4 <= esp <= Place(args, 0) && esp <= 4096
      requires StringsFrom(page[..], args, 0)
      modifies this, page
      ensures esp == old(esp) - 4 * |tokenAddress| - 4 && StringsFrom(page[..], args, 0)
      ensures ws == tokenAddress + [0] && WordsFrom(page[..], esp, ws)
    {
      hide WordsFrom, StringsFrom, Place;
      ws := [];
      NoWords(page[..], esp);
      PushWord(0, ws, args);
      assert [0] + ws == [0];
      ws := [0];
      var i := |tokenAddress|;
      while i > 0
        invariant 0 <= i <= |tokenAddress| && esp == old(esp) - 4 - 4 * (|tokenAddress| - i)
        invariant ws == tokenAddress[i..] + [0] && WordsFrom(page[..], esp, ws) && StringsFrom(page[..], args, 0)
      {
        i := i - 1;
        PushWord(tokenAddress[i], ws, args);
        ws := [tokenAddress[i]] + ws;
        assert tokenAddress[i..] == [tokenAddress[i]] + tokenAddress[i + 1..];
      }
    }

    // load, from the tokens to the finished stack.
    method Build(line: seq<byte>)
      requires |line| < 100 && 0 !in line && Words(line) != []
      requires page.Length == 4096 && esp == 4096
      modifies this, page
      ensures Arguments(page[..], esp, Words(line))
    {
      hide Spans, StringsFrom, WordsFrom, Cut, Arguments, Place;
      var fnCopy := new byte[100];
      var parsed := Tokenize(line, fnCopy);
      var tokenAddress := PushStrings(fnCopy, parsed, line);
      ghost var args := Words(line);
      SpansFit(line, 0);
      PlacesUp(args, 0, 0);
      var forAlign := (4096 - esp) % 4;
      if forAlign != 0 {
        esp := esp - (4 - forAlign);
      }
      PushFrame(tokenAddress, args);
    }

    // The rest of the frame, below the strings.
    method PushFrame(tokenAddress: seq<nat>, ghost args: seq<seq<byte>>)
      requires page.Length == 4096 && esp % 4 == 0 && 4 * |args| + 16 <= esp <= Place(args, 0) && esp <= 4096
      requires |tokenAddress| == |args| && forall k :: 0 <= k < |args| ==> tokenAddress[k] == PAGE_BASE + Place(args, k)
      requires StringsFrom(page[..], args, 0)
      modifies this, page
      ensures Arguments(page[..], esp, args)
    {
      hide StringsFrom, WordsFrom, Arguments, Place;
      AddressesFit(args, tokenAddress);
      ghost var ws := PushAddresses(tokenAddress, args);
      var argv: word := PAGE_BASE + esp;
      PushWord(argv, ws, args);
      PushWord(|tokenAddress|, [argv] + ws, args);
      PushWord(0, [|tokenAddress|] + ([argv] + ws), args);
      Laid(page[..], esp, args, [0] + ([|tokenAddress|] + ([argv] + ws)));
    }
  }

  lemma NoStrings(page: seq<byte>, args: seq<seq<byte>>)
    ensures StringsFrom(page, args, |args|) && Place(args, |args|) == 4096
  {
  }

  lemma NoWords(page: seq<byte>, at: nat)
    requires at <= |page|
    ensures WordsFrom(page, at, [])
  {
  }

  // strlen at a token's start measures the token.
  lemma TokenText(buf: seq<byte>, line: seq<byte>, i: nat)
    requires Cut(buf, line, Spans(line, SPACES, 0), |line|) && i < |Spans(line, SPACES, 0)| && 0 !in line
    ensures var t := Spans(line, SPACES, 0)[i]; t.start <= |buf| && CString(buf[t.start..]) == Words(line)[i]
  {
    var t := Spans(line, SPACES, 0)[i];
    assert CutAt(buf, line, t, |line|);
    hide Spans, Cut;
    assert buf[t.start..][..t.stop - t.start] == buf[t.start..t.stop];
    CStringOf(buf[t.start..], line[t.start..t.stop]);
  }

  lemma AddressesFit(args: seq<seq<byte>>, tokenAddress: seq<nat>)
    requires |tokenAddress| == |args| && forall k :: 0 <= k < |args| ==> tokenAddress[k] == PAGE_BASE + Place(args, k)
    ensures forall k :: 0 <= k < |args| ==> tokenAddress[k] < 0x1_0000_0000
  {
    forall k | 0 <= k < |args|
      ensures tokenAddress[k] < 0x1_0000_0000
    {
      PlacesUp(args, k, k);
    }
  }

  lemma Laid(page: seq<byte>, esp: nat, args: seq<seq<byte>>, ws: seq<word>)
    requires |page| == 4096 && esp % 4 == 0 && WordsFrom(page, esp, ws) && StringsFrom(page, args, 0)
    requires |ws| == |args| + 4 && ws[0] == 0 && ws[1] == |args| && ws[2] == PAGE_BASE + esp + 12 && ws[|args| + 3] == 0
    requires forall k :: 0 <= k < |args| ==> ws[k + 3] == PAGE_BASE + Place(args, k)
    requires esp + 4 * |ws| <= Place(args, 0)
    ensures Arguments(page, esp, args)
  {
    hide WordAt, StringAt;
    PlacesUp(args, 0, 0);
    forall i | 0 <= i < |args|
      ensures ArgumentAt(page, esp, args, i)
    {
      assert WordAt(page, esp + 4 * (i + 3)) == ws[i + 3];
      assert Place(args, i) >= 0 && StringAt(page, Place(args, i), args[i]);
    }
    assert WordAt(page, esp + 4 * 0) == ws[0] && WordAt(page, esp + 4 * 1) == ws[1] && WordAt(page, esp + 4 * 2) == ws[2];
    assert WordAt(page, esp + 4 * (|args| + 3)) == ws[|args| + 3];
  }
}
