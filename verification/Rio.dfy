// Buffered robust reading: whatever pieces read() returns, callers get the
// bytes of the stream in order, each once.
module Rio {
  import opened Bytes

  // A descriptor as read() shows it: the bytes still to come, how often a signal
  // handler will still interrupt, and whether reading may fail for good.
  class Stream {
    var rest: seq<byte>
    var interruptions: nat
    const faulty: bool

    constructor (data: seq<byte>, interruptions: nat, faulty: bool)
      ensures rest == data && this.interruptions == interruptions && this.faulty == faulty
    {
      rest, this.interruptions, this.faulty := data, interruptions, faulty;
    }

    // read (fd, buf, n): a positive number of bytes, not always as many as could
    // be had; 0 at the end only; or -1, with EINTR or without.
    method Read(buf: array<byte>, n: nat) returns (r: int, eintr: bool)
      requires 0 < n <= buf.Length
      modifies this, buf
      ensures -1 <= r <= n && r <= |old(rest)|
      ensures r == -1 && eintr ==> interruptions < old(interruptions)
      ensures r == -1 && !eintr ==> faulty
      ensures r != -1 || !eintr ==> interruptions == old(interruptions)
      ensures r == 0 ==> old(rest) == []
      ensures r <= 0 ==> rest == old(rest)
      ensures r > 0 ==> buf[..r] == old(rest)[..r] && rest == old(rest)[r..]
    {
      var interrupted: bool, fails: bool := *, *;
      if interrupted && interruptions > 0 {
        interruptions := interruptions - 1;
        return -1, true;
      }
      eintr := false;
      if fails && faulty {
        return -1, false;
      }
      if rest == [] {
        return 0, false;
      }
      var k: nat :| 0 < k <= n && k <= |rest|;
      forall i | 0 <= i < k {
        buf[i] := rest[i];
      }
      rest := rest[k..];
      r := k;
    }
  }

  // memcpy.
  method CopyBytes(dst: array<byte>, ofs: nat, src: array<byte>, from: nat, k: nat)
    requires ofs + k <= dst.Length && from + k <= src.Length && dst != src
    modifies dst
    ensures dst[..] == Splice(old(dst[..]), ofs, src[from..from + k])
  {
    forall i | 0 <= i < k {
      dst[ofs + i] := src[from + i];
    }
  }

  // The cnt bytes from ptr on, if there are any.
  function InBuffer(buf: seq<byte>, ptr: nat, cnt: int): seq<byte> {
    if 0 < cnt && ptr + cnt <= |buf| then buf[ptr..ptr + cnt] else []
  }

  lemma Whole(s: seq<byte>)
    ensures s[0..] == s && s[..0] == []
  {
  }

  lemma Unread(buf: seq<byte>, ptr: nat, cnt: nat, rest: seq<byte>, k: nat)
    requires k <= cnt && ptr + cnt <= |buf|
    ensures k <= |InBuffer(buf, ptr, cnt) + rest|
    ensures (InBuffer(buf, ptr, cnt) + rest)[..k] == buf[ptr..ptr + k]
    ensures (InBuffer(buf, ptr, cnt) + rest)[k..] == InBuffer(buf, ptr + k, cnt - k) + rest
  {
    if cnt == 0 { assert buf[ptr..ptr] == []; }
  }

  lemma MovesOn(before: seq<byte>, after: seq<byte>, k: nat)
    requires k <= |before| && before[k..] == after
    ensures Delivers(before, after, k)
  {
  }

  // How much rio_readlineb takes from s: up to the first newline, at most max bytes.
  function LineLength(s: seq<byte>, max: nat): (n: nat)
    ensures n <= |s| && n <= max && (forall k :: 0 <= k < n - 1 ==> s[k] != 10)
    ensures n == |s| || n == max || (n > 0 && s[n - 1] == 10)
  {
    if s == [] || max == 0 then 0 else if s[0] == 10 then 1 else 1 + LineLength(s[1..], max - 1)
  }

  function Min(a: nat, b: nat): (r: nat)
    ensures r <= a && r <= b && (r == a || r == b)
  {
    if a < b then a else b
  }

  datatype Call = ReadN(n: nat) | ReadLine(maxlen: nat)

  class Rio {
    const stream: Stream
    const buf: array<byte>
    var cnt: int               // unread bytes in buf, or what the last refill returned
    var ptr: nat               // the next of them

    ghost predicate Valid()
      reads this, buf
    {
      buf.Length == 8192 && -1 <= cnt && ptr + (if cnt > 0 then cnt else 0) <= 8192
    }

    // The bytes not delivered yet.
    ghost function Pending(): seq<byte>
      requires Valid()
      reads this, buf, stream
    {
      InBuffer(buf[..], ptr, cnt) + stream.rest
    }

    // rio_readinitb.
    constructor (stream: Stream)
      ensures Valid() && this.stream == stream && fresh(buf) && Pending() == stream.rest
    {
      this.stream := stream;
      buf := new byte[8192];
      cnt, ptr := 0, 0;
    }

    // The refill loop of rio_read; 0 at end of file, -1 on an error.
    method Refill() returns (r: int)
      requires Valid()
      modifies this, buf, stream
      ensures Valid() && Pending() == old(Pending())
      ensures r > 0 ==> cnt > 0
      ensures r == 0 ==> cnt == 0 && Pending() == []
      ensures r < 0 ==> stream.faulty
    {
      while cnt <= 0
        invariant Valid() && Pending() == old(Pending())
        decreases stream.interruptions, -cnt
      {
        var eintr;
        cnt, eintr := stream.Read(buf, 8192);
        ptr := 0;
        if cnt < 0 {
          if !eintr {
            return -1;
          }
        } else if cnt == 0 {
          return 0;
        } else {
          return 1;
        }
      }
      r := 1;
    }

    // rio_read into the user's buffer at ofs.
    method Read(usrbuf: array<byte>, ofs: nat, n: nat) returns (r: int)
      requires Valid() && ofs + n <= usrbuf.Length && usrbuf != buf
      modifies this, buf, stream, usrbuf
      ensures Valid() && (r < 0 ==> stream.faulty && Pending() == old(Pending()))
      ensures r >= 0 ==> Delivers(old(Pending()), Pending(), r) && r <= n
      ensures r >= 0 ==> usrbuf[..] == Splice(old(usrbuf[..]), ofs, old(Pending())[..r])
      ensures r == 0 ==> n == 0 || old(Pending()) == []
      ensures r < 0 ==> usrbuf[..] == old(usrbuf[..])
    {
      hide Splice, Pending, Valid;
      var full := Refill();
      Whole(old(Pending()));
      if full <= 0 {
        if full == 0 { SpliceNothing(usrbuf[..], ofs); }
        return full;
      }
      r := Take(usrbuf, ofs, n);
    }

    // "Copy min(n, rp->rio_cnt) bytes from internal buf to user buf."
    method Take(usrbuf: array<byte>, ofs: nat, n: nat) returns (k: nat)
      requires Valid() && cnt > 0 && ofs + n <= usrbuf.Length && usrbuf != buf
      modifies this`ptr, this`cnt, usrbuf
      ensures Valid() && Delivers(old(Pending()), Pending(), k) && k == Min(n, old(cnt))
      ensures usrbuf[..] == Splice(old(usrbuf[..]), ofs, old(Pending())[..k])
    {
      hide Splice, Delivers, InBuffer;
      k := Min(n, cnt);
      ghost var was, rest := buf[..], stream.rest;
      Unread(was, ptr, cnt, rest, k);
      MovesOn(InBuffer(was, ptr, cnt) + rest, InBuffer(was, ptr + k, cnt - k) + rest, k);
      assert was[ptr..ptr + k] == buf[ptr..ptr + k];
      CopyBytes(usrbuf, ofs, buf, ptr, k);
      assert buf[..] == was;
      ptr := ptr + k;
      cnt := cnt - k;
    }

    // rio_readnb: as many bytes as asked for, fewer only at end of file.
    method ReadNb(usrbuf: array<byte>, n: nat) returns (r: int)
      requires Valid() && n <= usrbuf.Length && usrbuf != buf
      modifies this, buf, stream, usrbuf
      ensures Valid() && (r < 0 ==> stream.faulty)
      ensures r >= 0 ==> r == Min(n, |old(Pending())|) && Delivers(old(Pending()), Pending(), r)
      ensures r >= 0 ==> usrbuf[..] == Splice(old(usrbuf[..]), 0, old(Pending())[..r])
    {
      var bufp := 0;
      ghost var all, was := Pending(), usrbuf[..];
      SpliceNothing(was, 0);
      while bufp < n
        invariant Valid() && bufp <= n && Delivers(all, Pending(), bufp)
        invariant usrbuf[..] == Splice(was, 0, all[..bufp])
      {
        var nread := Read(usrbuf, bufp, n - bufp);
        if nread < 0 {
          return -1;
        } else if nread == 0 {
          break;
        }
        Onward(was, all, bufp, nread);
        bufp := bufp + nread;
      }
      r := bufp;
    }

    // rio_read (rp, &c, 1).
    method ReadByte() returns (rc: int, c: byte)
      requires Valid()
      modifies this, buf, stream
      ensures Valid() && rc <= 1 && (rc < 0 ==> stream.faulty && Pending() == old(Pending()))
      ensures rc >= 0 ==> Delivers(old(Pending()), Pending(), rc)
      ensures rc == 0 ==> old(Pending()) == []
      ensures rc == 1 ==> c == old(Pending())[0]
    {
      var cell := new byte[1];
      rc := Read(cell, 0, 1);
      c := cell[0];
      if rc == 1 { assert cell[..][0] == old(Pending())[..1][0]; }
    }

    // rio_readlineb: a line with its newline and a null, cut at maxlen - 1 bytes
    // or at end of file; at end of file at once there is no null.
    method ReadLineB(usrbuf: array<byte>, maxlen: nat) returns (r: int)
      requires Valid() && 0 < usrbuf.Length && maxlen <= usrbuf.Length && usrbuf != buf
      modifies this, buf, stream, usrbuf
      ensures Valid() && (r < 0 ==> stream.faulty)
      ensures r >= 0 ==> var max := if maxlen > 0 then maxlen - 1 else 0;
                         r == LineLength(old(Pending()), max) && Delivers(old(Pending()), Pending(), r)
      ensures r >= 0 ==> usrbuf[..r] == old(Pending())[..r]
      ensures r > 0 || (r == 0 && maxlen <= 1) ==> r < usrbuf.Length && usrbuf[r] == 0
    {
      hide Delivers, LineLength, Pending, Valid;
      ghost var all, max := Pending(), if maxlen > 0 then maxlen - 1 else 0;
      ghost var ended := false;
      var n, bufp := 1, 0;
      NothingYet(all, usrbuf[..]);
      while n < maxlen
        invariant Valid() && 1 <= n && bufp == n - 1 && (n <= maxlen || n == 1) && !ended
        invariant InLine(all, Pending(), usrbuf[..], bufp) && NoNewline(all, bufp)
      {
        ghost var pending := Pending();
        var rc, c := ReadByte();
        if rc == 1 {
          ghost var was := usrbuf[..];
          OneMore(all, pending, Pending(), was, bufp, c);
          usrbuf[bufp] := c;
          bufp := bufp + 1;
          if c == 10 {
            n := n + 1;
            ended := true;
            break;
          }
        } else if rc == 0 {
          AtEnd(all, pending, Pending(), usrbuf[..], max, bufp);
          if n == 1 {
            return 0;
          } else {
            ended := true;
            break;
          }
        } else {
          return -1;
        }
        n := n + 1;
      }
      if !ended { LineEnds(all, max, bufp); }
      ghost var was := usrbuf[..];
      usrbuf[bufp] := 0;
      assert usrbuf[..bufp] == was[..bufp];
      r := n - 1;
    }

    // Any mix of calls, whatever pieces the stream comes in: each delivers the
    // bytes due to it, and together with what is pending they are all there was.
    method Run(calls: seq<Call>, usrbuf: array<byte>) returns (delivered: seq<seq<byte>>, ok: bool)
      requires Valid() && 0 < usrbuf.Length && usrbuf != buf
      requires forall k :: 0 <= k < |calls| ==> CallFits(calls[k], usrbuf.Length)
      modifies this, buf, stream, usrbuf
      ensures Valid() && (!ok ==> stream.faulty && |delivered| < |calls|)
      ensures delivered <= Pieces(calls, old(Pending()))
      ensures ok ==> delivered == Pieces(calls, old(Pending())) && Flat(delivered) + Pending() == old(Pending())
    {
      hide Valid, Pending, Wanted, Flat, CallFits, Pieces;
      delivered, ok := [], true;
      ghost var all := Pending();
      NothingRead(calls, all);
      var i := 0;
      while i < |calls|
        invariant i <= |calls| && Valid() && ok && |delivered| == i
        invariant delivered + Pieces(calls[i..], Pending()) == Pieces(calls, all)
        invariant Flat(delivered) + Pending() == all
      {
        ghost var pending := Pending();
        var out;
        out, ok := Perform(calls[i], usrbuf);
        if !ok {
          return;
        }
        NextPiece(calls, i, pending, out, delivered);
        Joined(Flat(delivered), out, Pending());
        FlatPlus(delivered, out);
        delivered := delivered + [out];
        i := i + 1;
      }
      NothingRead(calls[i..], Pending());
    }

    method Perform(call: Call, usrbuf: array<byte>) returns (out: seq<byte>, ok: bool)
      requires Valid() && 0 < usrbuf.Length && usrbuf != buf && CallFits(call, usrbuf.Length)
      modifies this, buf, stream, usrbuf
      ensures Valid() && (!ok ==> stream.faulty) && (ok ==> out + Pending() == old(Pending()))
      ensures ok ==> out == old(Pending())[..Wanted(call, old(Pending()))]
    {
      hide Delivers, LineLength, Pending, Valid, Splice;
      ghost var pending := Pending();
      var r;
      match call {
        case ReadN(n) =>
          r := ReadNb(usrbuf, n);
          if r >= 0 {
            SpliceSlices(old(usrbuf[..]), 0, pending[..r]);
            assert usrbuf[..r] == usrbuf[..][0..r];
          }
        case ReadLine(maxlen) =>
          r := ReadLineB(usrbuf, maxlen);
      }
      ok := r >= 0;
      out := [];
      if ok {
        out := usrbuf[..r];
        Cut(pending, Pending(), r);
        assert r == Wanted(call, pending);
      }
    }
  }

  predicate CallFits(call: Call, length: nat) {
    match call
    case ReadN(n) => n <= length
    case ReadLine(maxlen) => maxlen <= length
  }

  // How much of what is pending a call takes.
  function Wanted(call: Call, pending: seq<byte>): (n: nat)
    ensures n <= |pending|
  {
    match call
    case ReadN(n) => Min(n, |pending|)
    case ReadLine(maxlen) => LineLength(pending, if maxlen > 0 then maxlen - 1 else 0)
  }

  // What each of the calls takes.
  ghost function Pieces(calls: seq<Call>, pending: seq<byte>): (r: seq<seq<byte>>)
    ensures |r| == |calls|
  {
    if calls == [] then []
    else var n := Wanted(calls[0], pending); [pending[..n]] + Pieces(calls[1..], pending[n..])
  }

  ghost function Flat(pieces: seq<seq<byte>>): seq<byte> {
    if pieces == [] then [] else Flat(pieces[..|pieces| - 1]) + pieces[|pieces| - 1]
  }

  lemma NothingRead(calls: seq<Call>, all: seq<byte>)
    ensures calls[0..] == calls && [] + Pieces(calls, all) == Pieces(calls, all)
    ensures calls == [] ==> Pieces(calls, all) == []
    ensures Flat([]) == [] && [] + all == all
  {
  }

  lemma FlatPlus(pieces: seq<seq<byte>>, out: seq<byte>)
    ensures Flat(pieces + [out]) == Flat(pieces) + out
  {
    assert (pieces + [out])[..|pieces|] == pieces;
  }

  lemma NextPiece(calls: seq<Call>, i: nat, pending: seq<byte>, out: seq<byte>, delivered: seq<seq<byte>>)
    requires i < |calls| && out == pending[..Wanted(calls[i], pending)]
    ensures delivered + Pieces(calls[i..], pending)
            == (delivered + [out]) + Pieces(calls[i + 1..], pending[Wanted(calls[i], pending)..])
    ensures forall after :: out + after == pending ==> after == pending[Wanted(calls[i], pending)..]
  {
    hide Wanted;
    assert calls[i..][0] == calls[i] && calls[i..][1..] == calls[i + 1..];
    forall after | out + after == pending
      ensures after == pending[Wanted(calls[i], pending)..]
    {
      assert (out + after)[|out|..] == after;
    }
  }

  // With room for all of it, a call takes what is there up to its first newline.
  lemma FirstLine(call: Call, s: seq<byte>)
    requires call.ReadLine? && call.maxlen > |s| + 1
    ensures var n := Wanted(call, s);
            if 10 in s then n > 0 && s[n - 1] == 10 && 10 !in s[..n - 1] else n == |s|
  {
    var n := Wanted(call, s);
    if 10 in s && n == |s| {
      var i :| 0 <= i < |s| && s[i] == 10;
      assert i == n - 1;
    }
  }

  // Calls that ask for lines, with room for everything.
  ghost predicate ForLines(calls: seq<Call>, s: seq<byte>) {
    forall i :: 0 <= i < |calls| ==> calls[i].ReadLine? && calls[i].maxlen > |s| + 1
  }

  // A piece that ends with its only newline, or has none and is the last.
  ghost predicate IsLine(pieces: seq<seq<byte>>, k: nat)
    requires k < |pieces|
  {
    var line := pieces[k];
    || (line != [] && line[|line| - 1] == 10 && 10 !in line[..|line| - 1])
    || (10 !in line && forall j :: k < j < |pieces| ==> pieces[j] == [])
  }

  // Reading by lines with room enough takes a stream apart at its newlines.
  lemma {:induction false} LinesRead(calls: seq<Call>, s: seq<byte>, k: nat)
    requires ForLines(calls, s) && k < |calls|
    ensures IsLine(Pieces(calls, s), k)
    decreases k
  {
    hide IsLine;
    if k == 0 {
      FirstPiece(calls, s);
    } else {
      var n := Wanted(calls[0], s);
      LaterPieces(calls, s);
      hide Pieces, Wanted;
      LinesRead(calls[1..], s[n..], k - 1);
      hide ForLines;
      LineLater(Pieces(calls, s), k);
    }
  }

  lemma LaterPieces(calls: seq<Call>, s: seq<byte>)
    requires calls != []
    ensures Pieces(calls, s)[1..] == Pieces(calls[1..], s[Wanted(calls[0], s)..])
  {
    hide Wanted;
  }

  lemma LineLater(pieces: seq<seq<byte>>, k: nat)
    requires 0 < k < |pieces| && IsLine(pieces[1..], k - 1)
    ensures IsLine(pieces, k)
  {
    assert forall j :: 0 < j < |pieces| ==> pieces[j] == pieces[1..][j - 1];
  }

  lemma FirstPiece(calls: seq<Call>, s: seq<byte>)
    requires ForLines(calls, s) && calls != []
    ensures IsLine(Pieces(calls, s), 0)
  {
    FirstLine(calls[0], s);
    var n := Wanted(calls[0], s);
    hide Wanted, ForLines;
    var pieces := Pieces(calls, s);
    assert pieces[0] == s[..n];
    if 10 !in s {
      LaterPieces(calls, s);
      hide Pieces;
      assert s[n..] == [];
      forall j | 0 < j < |pieces|
        ensures pieces[j] == []
      {
        assert pieces[j] == pieces[1..][j - 1];
        NothingLeft(calls[1..], j - 1);
      }
    } else {
      hide Pieces;
      assert s[..n][..n - 1] == s[..n - 1];
    }
  }

  lemma {:induction false} NothingLeft(calls: seq<Call>, j: nat)
    requires j < |calls|
    ensures Pieces(calls, [])[j] == []
    decreases j
  {
    WantsNothing(calls[0]);
    hide Wanted;
    var none: seq<byte> := [];
    assert none[..0] == none && none[0..] == none;
    if j > 0 { NothingLeft(calls[1..], j - 1); }
  }

  lemma WantsNothing(call: Call)
    ensures Wanted(call, []) == 0
  {
  }

  lemma Cut(before: seq<byte>, after: seq<byte>, n: nat)
    requires Delivers(before, after, n)
    ensures n <= |before| && before[..n] + after == before
  {
  }

  lemma Joined(a: seq<byte>, b: seq<byte>, c: seq<byte>)
    ensures a + (b + c) == (a + b) + c
  {
  }

  // n bytes of a line are in the user's buffer.
  ghost predicate InLine(all: seq<byte>, pending: seq<byte>, usr: seq<byte>, n: nat) {
    Delivers(all, pending, n) && n <= |usr| && usr[..n] == all[..n]
  }

  ghost predicate NoNewline(s: seq<byte>, n: nat) {
    n <= |s| && forall k :: 0 <= k < n ==> s[k] != 10
  }

  lemma NothingYet(all: seq<byte>, usr: seq<byte>)
    ensures InLine(all, all, usr, 0) && NoNewline(all, 0)
  {
  }

  lemma OneMore(all: seq<byte>, pending: seq<byte>, pending': seq<byte>, usr: seq<byte>, n: nat, c: byte)
    requires InLine(all, pending, usr, n) && NoNewline(all, n) && n < |usr|
    requires Delivers(pending, pending', 1) && c == pending[0]
    ensures InLine(all, pending', usr[n := c], n + 1)
    ensures if c == 10 then forall max :: max > n ==> LineLength(all, max) == n + 1 else NoNewline(all, n + 1)
  {
    assert usr[n := c][..n + 1] == usr[..n] + [c];
    assert all[n..][0] == all[n];
    if c == 10 {
      forall max | max > n
        ensures LineLength(all, max) == n + 1
      {
        LineEnds(all, max, n + 1);
      }
    }
  }

  lemma AtEnd(all: seq<byte>, pending: seq<byte>, pending': seq<byte>, usr: seq<byte>, max: nat, n: nat)
    requires InLine(all, pending, usr, n) && NoNewline(all, n) && n <= max && pending == [] && Delivers(pending, pending', 0)
    ensures LineLength(all, max) == n && InLine(all, pending', usr, n)
  {
    LineEnds(all, max, n);
  }

  lemma Onward(was: seq<byte>, all: seq<byte>, n: nat, more: nat)
    requires n + more <= |all| && n + more <= |was|
    ensures Splice(Splice(was, 0, all[..n]), n, all[n..][..more]) == Splice(was, 0, all[..n + more])
    ensures all[n..][more..] == all[n + more..]
  {
    assert all[..n + more] == all[..n] + all[n..][..more];
    SpliceMore(was, 0, all[..n], all[n..][..more]);
  }

  // Where a line of at most max bytes stops.
  lemma {:induction false} LineEnds(s: seq<byte>, max: nat, n: nat)
    requires n <= |s| && n <= max && forall k :: 0 <= k < n - 1 ==> s[k] != 10
    requires n == max || n == |s| || (n > 0 && s[n - 1] == 10)
    ensures LineLength(s, max) == n
    decreases n
  {
    if n > 0 && s[0] != 10 {
      assert forall k :: 0 <= k < n - 1 ==> s[1..][k] == s[k + 1];
      LineEnds(s[1..], max - 1, n - 1);
    }
  }

  // The first n pending bytes are gone.
  ghost predicate Delivers(before: seq<byte>, after: seq<byte>, n: int) {
    0 <= n <= |before| && after == before[n..]
  }
}
