// Headers of ustar archives: composing one and parsing one.
module Ustar {
  import opened Bytes
  import Printf

  const REGULAR: byte := 48      // '0'
  const DIRECTORY: byte := 53    // '5'

  // ---- Stripped names. ----

  // "/", "./" or "../" at the front.
  predicate Antisocial(s: seq<byte>) {
    || (|s| >= 1 && s[0] == 47)
    || (|s| >= 2 && s[0] == 46 && s[1] == 47)
    || (|s| >= 3 && s[0] == 46 && s[1] == 46 && s[2] == 47)
  }

  // strchr (s, '/'): where the first slash is.
  function Slash(s: seq<byte>): (n: nat)
    ensures n <= |s| && 47 !in s[..n] && (n < |s| ==> s[n] == 47)
  {
    if s == [] || s[0] == 47 then 0 else 1 + Slash(s[1..])
  }

  lemma SlashNear(s: seq<byte>)
    requires Antisocial(s)
    ensures Slash(s) < |s| && Slash(s) <= 2
  {
    if s[0] != 47 && s[1] != 47 {
      assert s[1..][0] == 46 && s[1..][1] == 47;
      assert Slash(s[1..]) == 1 + Slash(s[1..][1..]);
    }
  }

  function Trim(s: seq<byte>): (t: seq<byte>)
    ensures !Antisocial(t) && |t| <= |s| && s[|s| - |t|..] == t
    decreases |s|
  {
    if Antisocial(s) then
      SlashNear(s);
      var t := Trim(s[Slash(s) + 1..]);
      t
    else s
  }

  // The name that goes into an archive or comes out of one.
  function Strip(s: seq<byte>): seq<byte> {
    var t := Trim(s);
    if t == [] || t == [46, 46] then [46] else t
  }

  // A stripped name names nothing outside the current directory by a prefix, and
  // stripping it again changes nothing.
  lemma StripIdempotent(s: seq<byte>)
    ensures Strip(s) != [] && !Antisocial(Strip(s)) && Strip(s) != [46, 46]
    ensures Strip(Strip(s)) == Strip(s)
    ensures 0 !in s ==> 0 !in Strip(s)
  {
    var t := Trim(s);
    if 0 !in s { TrimClean(s); }
    TrimmedStays(t);
    Dot();
    hide Trim, Antisocial;
    if t == [] || t == [46, 46] {
      assert Strip(s) == [46];
    } else {
      assert Strip(s) == t;
    }
  }

  // The prefixes that go are "/", "./" and "../", each as often as it comes; what
  // is then left is the name, "." for nothing or for "..".
  lemma StripDropsPrefix(t: seq<byte>)
    ensures Strip([47] + t) == Strip([46, 47] + t) == Strip([46, 46, 47] + t) == Strip(t)
    ensures !Antisocial(t) ==> Strip(t) == if t == [] || t == [46, 46] then [46] else t
  {
    hide *;
    DropsPrefix([47], t);
    DropsPrefix([46, 47], t);
    DropsPrefix([46, 46, 47], t);
    if !Antisocial(t) { StripIs(t); }
  }

  lemma StripIs(t: seq<byte>)
    requires !Antisocial(t)
    ensures Strip(t) == if t == [] || t == [46, 46] then [46] else t
  {
    TrimmedStays(t);
  }

  lemma DropsPrefix(p: seq<byte>, t: seq<byte>)
    requires p == [47] || p == [46, 47] || p == [46, 46, 47]
    ensures Strip(p + t) == Strip(t)
  {
    TrimDrops(p, t);
    hide Trim;
  }

  lemma TrimDrops(p: seq<byte>, t: seq<byte>)
    requires p == [47] || p == [46, 47] || p == [46, 46, 47]
    ensures Trim(p + t) == Trim(t)
  {
    var s := p + t;
    assert forall k :: 0 <= k < |p| ==> s[k] == p[k];
    FirstSlash(s, |p|);
    hide Slash;
    assert s[|p|..] == t;
  }

  lemma FirstSlash(s: seq<byte>, n: nat)
    requires 1 <= n <= 3 && |s| >= n && s[n - 1] == 47 && forall k :: 0 <= k < n - 1 ==> s[k] == 46
    ensures Antisocial(s) && Slash(s) + 1 == n
  {
    if n == 2 {
      assert s[1..][0] == 47;
    } else if n == 3 {
      assert s[1..][0] == 46 && s[1..][1..][0] == 47;
    }
  }

  lemma Dot()
    ensures !Antisocial([46]) && Trim([46]) == [46] && [46] != [46, 46] && [46] != []
  {
  }

  lemma TrimmedStays(t: seq<byte>)
    requires !Antisocial(t)
    ensures Trim(t) == t
  {
  }

  lemma TrimClean(s: seq<byte>)
    requires 0 !in s
    ensures 0 !in Trim(s)
  {
    var t := Trim(s);
    assert forall k :: 0 <= k < |t| ==> t[k] == s[|s| - |t|..][k];
  }

  method StripAntisocialPrefixes(fileName: seq<byte>) returns (r: seq<byte>)
    requires 0 !in fileName
    ensures r == Strip(fileName)
  {
    var s := fileName;
    while Antisocial(s)
      invariant Trim(s) == Trim(fileName)
      decreases |s|
    {
      SlashNear(s);
      s := s[Slash(s) + 1..];
    }
    r := if s == [] || s == [46, 46] then [46] else s;
  }

  // ---- Octal fields. ----

  // "%0*o" for a value of at most n digits.
  function Octal(v: nat, n: nat): (d: seq<byte>)
    ensures |d| == n && forall k :: 0 <= k < n ==> 48 <= d[k] <= 55
  {
    if n == 0 then [] else Octal(v / 8, n - 1) + [48 + v % 8]
  }

  function Pow8(n: nat): nat {
    if n == 0 then 1 else 8 * Pow8(n - 1)
  }

  // That is what snprintf makes of "%0*o".
  lemma OctalIsPrinted(v: nat, n: nat)
    requires 0 < n && v < Pow8(n)
    ensures Octal(v, n) ==
            Printf.Formatted(v, false, false, Printf.BASE_O, Printf.Conversion(false, false, false, false, true, false, n, -1))
  {
    var c := Printf.Conversion(false, false, false, false, true, false, n, -1);
    var places := Printf.Places(v, Printf.BASE_O, false, 0);
    OctalPlaces(v, n, 0);
    DigitsOf(v, c);
    hide *;
    var d := Printf.Digital(v, Printf.BASE_O, c);
    ZerosReversed(places, |d| - |places|, n);
    Formats(v, n, c);
  }

  // At least one digit.
  lemma DigitsOf(v: nat, c: Printf.Conversion)
    requires !c.pound && !c.group && c.precision == -1
    ensures var places := Printf.Places(v, Printf.BASE_O, false, 0);
            var d := Printf.Digital(v, Printf.BASE_O, c);
            |places| <= |d| && d == places + Printf.Repeat(48, |d| - |places|) && (|d| > |places| ==> |d| == 1)
  {
    hide Printf.Places;
  }

  lemma ZerosReversed(places: seq<byte>, zeros: nat, n: nat)
    requires |places| + zeros <= n
    ensures var d := places + Printf.Repeat(48, zeros);
            Printf.Repeat(48, n - |d|) + Printf.Reverse(d) == Printf.Repeat(48, n - |places|) + Printf.Reverse(places)
  {
    var d := places + Printf.Repeat(48, zeros);
    assert Printf.Reverse(d) == Printf.Repeat(48, zeros) + Printf.Reverse(places);
    assert Printf.Repeat(48, n - |d|) + Printf.Repeat(48, zeros) == Printf.Repeat(48, n - |places|);
  }

  lemma Formats(v: nat, n: nat, c: Printf.Conversion)
    requires c == Printf.Conversion(false, false, false, false, true, false, n, -1)
    requires |Printf.Digital(v, Printf.BASE_O, c)| <= n
    ensures var d := Printf.Digital(v, Printf.BASE_O, c);
            Printf.Formatted(v, false, false, Printf.BASE_O, c) == Printf.Repeat(48, n - |d|) + Printf.Reverse(d)
  {
    hide Printf.Digital, Printf.Reverse;
  }

  lemma {:induction false} OctalPlaces(v: nat, n: nat, k: nat)
    requires v < Pow8(n)
    ensures var p := Printf.Places(v, Printf.BASE_O, false, k);
            |p| <= n && Octal(v, n) == Printf.Repeat(48, n - |p|) + Printf.Reverse(p)
    decreases n
  {
    if n > 0 {
      OctalPlaces(v / 8, n - 1, k + 1);
      var p := Printf.Places(v, Printf.BASE_O, false, k);
      var rest := Printf.Places(v / 8, Printf.BASE_O, false, k + 1);
      if v > 0 {
        OctalDigit(v % 8);
        assert p == [] + [48 + v % 8] + rest;
        assert Printf.Reverse(p) == Printf.Reverse(rest) + [48 + v % 8];
      } else {
        assert rest == [] && p == [];
        assert Printf.Repeat(48, n) == Printf.Repeat(48, n - 1) + [48];
      }
    }
  }

  lemma OctalDigit(d: nat)
    requires d < 8
    ensures Printf.BASE_O.digits[d] == 48 + d
  {
  }

  datatype Number = Number(value: nat) | NoNumber

  // parse_octal_field, with the digits read so far: a value of 32 bits, ended by
  // a space or a null within the field.
  function ParseOctal(s: seq<byte>, ofs: nat, value: nat): Number
    decreases |s| - ofs
  {
    if ofs >= |s| then NoNumber
    else if 48 <= s[ofs] <= 55 then
      if value > 0xffff_ffff / 8 then NoNumber else ParseOctal(s, ofs + 1, s[ofs] as int - 48 + value * 8)
    else if s[ofs] == 32 || s[ofs] == 0 then if ofs > 0 then Number(value) else NoNumber
    else NoNumber
  }

  // Reading the first n digits of a field.
  lemma {:induction false} OctalDigits(v: nat, n: nat, s: seq<byte>)
    requires v < Pow8(n) && v <= 0xffff_ffff && n <= |s| && s[..n] == Octal(v, n)
    ensures ParseOctal(s, 0, 0) == ParseOctal(s, n, v)
  {
    if n > 0 {
      assert s[..n - 1] == s[..n][..n - 1] == Octal(v / 8, n - 1);
      OctalDigits(v / 8, n - 1, s);
      assert s[n - 1] == s[..n][n - 1] == 48 + v % 8;
      assert ParseOctal(s, n - 1, v / 8) == ParseOctal(s, n, v % 8 + v / 8 * 8);
    }
  }

  // A field parses to the value that was written into it.
  lemma OctalRoundTrip(v: nat, n: nat, s: seq<byte>)
    requires 0 < n < |s| && v < Pow8(n) && v <= 0xffff_ffff && s[..n] == Octal(v, n) && s[n] == 0
    ensures ParseOctal(s, 0, 0) == Number(v)
  {
    OctalDigits(v, n, s);
  }

  predicate OctalText(d: seq<byte>) {
    forall k :: 0 <= k < |d| ==> 48 <= d[k] <= 55
  }

  function OctalValue(d: seq<byte>): nat
    requires OctalText(d)
  {
    if d == [] then 0 else 8 * OctalValue(d[..|d| - 1]) + (d[|d| - 1] as int - 48)
  }

  // What a field that begins with just n octal digits parses to: their value, if
  // there are any, a space or null comes next and the value has 32 bits.
  lemma ParsesExactly(s: seq<byte>, n: nat)
    requires n <= |s| && OctalText(s[..n]) && (n < |s| ==> !(48 <= s[n] <= 55))
    ensures ParseOctal(s, 0, 0) ==
            if 0 < n < |s| && (s[n] == 32 || s[n] == 0) && OctalValue(s[..n]) <= 0xffff_ffff then Number(OctalValue(s[..n]))
            else NoNumber
  {
    ParsesTo(s, n);
    hide OctalValue;
  }

  lemma {:induction false} ParsesTo(s: seq<byte>, n: nat)
    requires n <= |s| && OctalText(s[..n])
    ensures ParseOctal(s, 0, 0) ==
            if OctalValue(s[..n]) <= 0xffff_ffff then ParseOctal(s, n, OctalValue(s[..n])) else NoNumber
  {
    if n > 0 {
      assert s[..n][..n - 1] == s[..n - 1] && s[..n][n - 1] == s[n - 1];
      ParsesTo(s, n - 1);
      var v := OctalValue(s[..n - 1]);
      assert OctalValue(s[..n]) == 8 * v + (s[n - 1] as int - 48);
      assert v > 0xffff_ffff / 8 <==> 8 * v + (s[n - 1] as int - 48) > 0xffff_ffff;
    }
  }

  method ParseOctalField(s: seq<byte>) returns (ok: bool, value: nat)
    ensures ParseOctal(s, 0, 0) == if ok then Number(value) else NoNumber
    ensures ok ==> value <= 0xffff_ffff
  {
    value := 0;
    var ofs := 0;
    while ofs < |s|
      invariant ofs <= |s| && value <= 0xffff_ffff && ParseOctal(s, 0, 0) == ParseOctal(s, ofs, value)
    {
      var c := s[ofs];
      if 48 <= c <= 55 {
        if value > 0xffff_ffff / 8 {
          return false, value;
        }
        value := c as int - 48 + value * 8;
      } else if c == 32 || c == 0 {
        return ofs > 0, value;
      } else {
        return false, value;
      }
      ofs := ofs + 1;
    }
    ok := false;
  }

  // ---- Checksums. ----

  // The sum of the first n bytes, those of the checksum field counting as spaces.
  function Sum(h: seq<byte>, n: nat): nat
    requires n <= |h|
  {
    if n == 0 then 0 else Sum(h, n - 1) + if 148 <= n - 1 < 156 then 32 else h[n - 1]
  }

  lemma {:induction false} SumBound(h: seq<byte>, n: nat)
    requires n <= |h|
    ensures Sum(h, n) <= 255 * n
  {
    if n > 0 { SumBound(h, n - 1); }
  }

  // The checksum field does not count.
  lemma {:induction false} SumIgnoresField(h: seq<byte>, h': seq<byte>, n: nat)
    requires n <= |h| == |h'| && forall k :: 0 <= k < |h| && !(148 <= k < 156) ==> h'[k] == h[k]
    ensures Sum(h', n) == Sum(h, n)
  {
    if n > 0 { SumIgnoresField(h, h', n - 1); }
  }

  // Any other byte does.
  lemma {:induction false} SumSeesByte(h: seq<byte>, i: nat, b: byte, n: nat)
    requires i < |h| && n <= |h| && !(148 <= i < 156)
    ensures Sum(h[i := b], n) - Sum(h, n) == if i < n then b as int - h[i] as int else 0
  {
    if n > 0 { SumSeesByte(h, i, b, n - 1); }
  }

  method CalculateChksum(h: array<byte>) returns (chksum: nat)
    requires h.Length == 512
    ensures chksum == Sum(h[..], 512)
  {
    chksum := 0;
    for i := 0 to 512
      invariant chksum == Sum(h[..], i)
    {
      var inChksumField := 148 <= i < 156;
      chksum := chksum + if inChksumField then 32 else h[i];
    }
  }

  // ---- Headers. ----

  // What the fields of a header hold; the bytes of a field past its contents and
  // all other bytes are zero.
  datatype Header = Header(name: seq<byte>, mode: seq<byte>, uid: seq<byte>, gid: seq<byte>, size: seq<byte>,
                           mtime: seq<byte>, chksum: seq<byte>, typeflag: seq<byte>, magic: seq<byte>,
                           version: seq<byte>, uname: seq<byte>, gname: seq<byte>)

  function Nth(s: seq<byte>, k: int): byte {
    if 0 <= k < |s| then s[k] else 0
  }

  function ByteAt(h: Header, k: nat): byte {
    if k < 100 then Nth(h.name, k)
    else if k < 108 then Nth(h.mode, k - 100)
    else if k < 116 then Nth(h.uid, k - 108)
    else if k < 124 then Nth(h.gid, k - 116)
    else if k < 136 then Nth(h.size, k - 124)
    else if k < 148 then Nth(h.mtime, k - 136)
    else if k < 156 then Nth(h.chksum, k - 148)
    else if k < 157 then Nth(h.typeflag, k - 156)
    else if k < 257 then 0
    else if k < 263 then Nth(h.magic, k - 257)
    else if k < 265 then Nth(h.version, k - 263)
    else if k < 297 then Nth(h.uname, k - 265)
    else if k < 329 then Nth(h.gname, k - 297)
    else 0
  }

  function Encode(h: Header): (r: seq<byte>)
    ensures |r| == 512 && forall k :: 0 <= k < 512 ==> r[k] == ByteAt(h, k)
  {
    seq(512, k requires 0 <= k < 512 => ByteAt(h, k))
  }

  const ZEROS7: seq<byte> := [48, 48, 48, 48, 48, 48, 48]
  const USTAR_MAGIC: seq<byte> := [117, 115, 116, 97, 114, 0]
  const ROOT: seq<byte> := [114, 111, 111, 116]

  // The header for a file, but for its checksum.
  function Unsummed(name: seq<byte>, kind: byte, size: int): Header {
    Header(Strip(name), Octal(if kind == REGULAR then 0x1a4 else 0x1ed, 7), ZEROS7, ZEROS7,
           Octal(size % 0x1_0000_0000, 11), Octal(1136102400, 11), [], [kind], USTAR_MAGIC, [48, 48], ROOT, ROOT)
  }

  function Made(name: seq<byte>, kind: byte, size: int): Header {
    var h := Unsummed(name, kind, size);
    h.(chksum := Octal(Sum(Encode(h), 512), 7))
  }

  // ---- Composing one. ----

  method Put(header: array<byte>, ofs: nat, data: seq<byte>)
    requires ofs + |data| <= header.Length
    modifies header
    ensures forall k :: 0 <= k < header.Length ==>
              header[k] == if ofs <= k < ofs + |data| then data[k - ofs] else old(header[k])
  {
    forall k | 0 <= k < |data| {
      header[ofs + k] := data[k];
    }
  }

  ghost predicate Filled(header: array<byte>, h: Header)
    reads header
  {
    header.Length == 512 && forall k :: 0 <= k < 512 ==> header[k] == ByteAt(h, k)
  }

  method UstarMakeHeader(fileName: seq<byte>, kind: byte, size: int, header: array<byte>) returns (ok: bool)
    requires 0 !in fileName && (kind == REGULAR || kind == DIRECTORY) && -0x8000_0000 <= size < 0x8000_0000
    requires header.Length == 512
    modifies header
    ensures ok <==> |Strip(fileName)| <= 99
    ensures ok ==> header[..] == Encode(Made(fileName, kind, size))
    ensures !ok ==> header[..] == old(header[..])
  {
    hide Octal, Strip, Sum, Trim;
    var name := StripAntisocialPrefixes(fileName);
    if |name| > 99 {
      return false;
    }
    FillIn(name, kind, size, header);
    ghost var h := Unsummed(fileName, kind, size);
    assert header[..] == Encode(h);
    var chksum := CalculateChksum(header);
    Put(header, 148, Octal(chksum, 7) + [0]);
    assert header[..] == Encode(Made(fileName, kind, size));
    ok := true;
  }

  // "Fill in header except for final checksum." A null follows each string.
  method FillIn(name: seq<byte>, kind: byte, size: int, header: array<byte>)
    requires header.Length == 512 && |name| <= 99
    modifies header
    ensures Filled(header, Header(name, Octal(if kind == REGULAR then 0x1a4 else 0x1ed, 7), ZEROS7, ZEROS7,
                                  Octal(size % 0x1_0000_0000, 11), Octal(1136102400, 11), [], [kind], USTAR_MAGIC,
                                  [48, 48], ROOT, ROOT))
  {
    hide Octal;
    Put(header, 0, Zeros(512));
    Put(header, 0, name + [0]);
    Put(header, 100, Octal(if kind == REGULAR then 0x1a4 else 0x1ed, 7) + [0]);
    Put(header, 108, ZEROS7 + [0]);
    Put(header, 116, ZEROS7 + [0]);
    Put(header, 124, Octal(size % 0x1_0000_0000, 11) + [0]);
    Put(header, 136, Octal(1136102400, 11) + [0]);
    Put(header, 156, [kind]);
    Put(header, 257, USTAR_MAGIC);
    Put(header, 263, [48, 48]);
    Put(header, 297, ROOT + [0]);
    Put(header, 265, ROOT + [0]);
  }

  // ---- Parsing one. ----

  datatype Problem = NotUstar | BadVersion | CorruptChksum | ChksumMismatch | NameTooLong | BadType | CorruptSize | TooLarge

  datatype Parsed = EndOfArchive | Entry(name: seq<byte>, kind: byte, size: nat) | Failed(problem: Problem)

  predicate AllZeros(s: seq<byte>) {
    forall k :: 0 <= k < |s| ==> s[k] == 0
  }

  function Parse(s: seq<byte>): Parsed
    requires |s| == 512
  {
    if AllZeros(s) then EndOfArchive
    else if s[257..263] != USTAR_MAGIC then Failed(NotUstar)
    else if s[263] != 48 || s[264] != 48 then Failed(BadVersion)
    else
      var chksum := ParseOctal(s[148..156], 0, 0);
      if chksum.NoNumber? then Failed(CorruptChksum)
      else if chksum.value != Sum(s, 512) then Failed(ChksumMismatch)
      else if s[99] != 0 || s[345] != 0 then Failed(NameTooLong)
      else if s[156] != REGULAR && s[156] != DIRECTORY then Failed(BadType)
      else if s[156] == DIRECTORY then Entry(Strip(CString(s[..100])), DIRECTORY, 0)
      else
        var size := ParseOctal(s[124..136], 0, 0);
        if size.NoNumber? then Failed(CorruptSize)
        else if size.value > 0x7fff_ffff then Failed(TooLarge)
        else Entry(Strip(CString(s[..100])), REGULAR, size.value)
  }

  method IsAllZeros(block: array<byte>) returns (zeros: bool)
    ensures zeros <==> AllZeros(block[..])
  {
    var i := 0;
    while i < block.Length
      invariant i <= block.Length && forall k :: 0 <= k < i ==> block[k] == 0
    {
      if block[i] != 0 {
        return false;
      }
      i := i + 1;
    }
    zeros := true;
  }

  method UstarParseHeader(header: array<byte>) returns (r: Parsed)
    requires header.Length == 512
    ensures r == Parse(header[..])
  {
    var zeros := IsAllZeros(header);
    if zeros {
      return EndOfArchive;
    }
    if header[257..263] != USTAR_MAGIC {
      return Failed(NotUstar);
    }
    if header[263] != 48 || header[264] != 48 {
      return Failed(BadVersion);
    }
    var ok, chksum := ParseOctalField(header[148..156]);
    if !ok {
      return Failed(CorruptChksum);
    }
    var actual := CalculateChksum(header);
    if chksum != actual {
      return Failed(ChksumMismatch);
    }
    if header[99] != 0 || header[345] != 0 {
      return Failed(NameTooLong);
    }
    if header[156] != REGULAR && header[156] != DIRECTORY {
      return Failed(BadType);
    }
    var size := 0;
    if header[156] == REGULAR {
      ok, size := ParseOctalField(header[124..136]);
      if !ok {
        return Failed(CorruptSize);
      }
      if size > 0x7fff_ffff {
        return Failed(TooLarge);
      }
    }
    assert header[..][..100] == header[..100] && header[..][124..136] == header[124..136];
    var name := StripAntisocialPrefixes(CString(header[..100]));
    r := Entry(name, header[156], size);
  }

  // ---- The two are inverse. ----

  // A string and its null in a field of the encoded header.
  lemma FieldHolds(h: Header, ofs: nat, len: nat, data: seq<byte>)
    requires ofs + len <= 512 && |data| < len
    requires forall k :: ofs <= k < ofs + len ==> ByteAt(h, k) == Nth(data, k - ofs)
    ensures Encode(h)[ofs..ofs + len][..|data|] == data && Encode(h)[ofs..ofs + len][|data|] == 0
  {
    var f := Encode(h)[ofs..ofs + len];
    forall k | 0 <= k < len
      ensures f[k] == Nth(data, k)
    {
      assert f[k] == Encode(h)[ofs + k];
    }
  }

  lemma Pow8Values()
    ensures Pow8(7) == 0x20_0000 && Pow8(11) == 0x2_0000_0000
  {
    assert Pow8(3) == 512 && Pow8(7) == 512 * 8 * 512;
    assert Pow8(10) == 0x4000_0000;
  }

  // The checksum written is the checksum of the finished header.
  lemma ChecksumRoundTrip(name: seq<byte>, kind: byte, size: int)
    ensures var s := Encode(Made(name, kind, size));
            ParseOctal(s[148..156], 0, 0) == Number(Sum(s, 512))
  {
    var h, m := Unsummed(name, kind, size), Made(name, kind, size);
    hide Octal, Strip;
    var sum := Sum(Encode(h), 512);
    SumBound(Encode(h), 512);
    SumIgnoresField(Encode(h), Encode(m), 512);
    Pow8Values();
    FieldHolds(m, 148, 8, Octal(sum, 7));
    OctalRoundTrip(sum, 7, Encode(m)[148..156]);
  }

  // Parsing gives back the stripped name, the type and, for a regular file, the
  // size; a negative size is refused.
  lemma RoundTrip(name: seq<byte>, kind: byte, size: int)
    requires 0 !in name && |Strip(name)| <= 99 && (kind == REGULAR || kind == DIRECTORY)
    requires -0x8000_0000 <= size < 0x8000_0000
    ensures Parse(Encode(Made(name, kind, size))) ==
            if kind == DIRECTORY then Entry(Strip(name), DIRECTORY, 0)
            else if size < 0 then Failed(TooLarge)
            else Entry(Strip(name), REGULAR, size)
  {
    var h := Made(name, kind, size);
    var s := Encode(h);
    StripIdempotent(name);
    hide Octal, Strip, CString, Sum, ParseOctal;
    FixedFields(h);
    ChecksumRoundTrip(name, kind, size);
    NameBack(h, Strip(name));
    SizeBack(h, size % 0x1_0000_0000);
  }

  lemma FixedFields(h: Header)
    requires h.magic == USTAR_MAGIC && h.version == [48, 48] && |h.typeflag| == 1 && |h.name| <= 99
    ensures var s := Encode(h);
            && !AllZeros(s) && s[257..263] == USTAR_MAGIC && s[263] == 48 && s[264] == 48
            && s[99] == 0 && s[345] == 0 && s[156] == h.typeflag[0]
  {
    assert Encode(h)[257] == 117;
  }

  lemma NameBack(h: Header, name: seq<byte>)
    requires h.name == name && |name| <= 99 && 0 !in name
    ensures CString(Encode(h)[..100]) == name
  {
    FieldHolds(h, 0, 100, name);
    assert Encode(h)[0..100] == Encode(h)[..100];
    CStringOf(Encode(h)[..100], name);
  }

  lemma SizeBack(h: Header, size: nat)
    requires h.size == Octal(size, 11) && size <= 0xffff_ffff
    ensures ParseOctal(Encode(h)[124..136], 0, 0) == Number(size)
  {
    hide Octal;
    Pow8Values();
    FieldHolds(h, 124, 12, Octal(size, 11));
    OctalRoundTrip(size, 11, Encode(h)[124..136]);
  }

  // The mode is 0755 for a directory and 0644 for a file, the owner and group are
  // number 0 and called root, and the time is the first of January 2006.
  lemma AttributesBack(name: seq<byte>, kind: byte, size: int)
    ensures var s := Encode(Made(name, kind, size));
            && ParseOctal(s[100..108], 0, 0) == Number(if kind == REGULAR then 0x1a4 else 0x1ed)
            && ParseOctal(s[108..116], 0, 0) == ParseOctal(s[116..124], 0, 0) == Number(0)
            && ParseOctal(s[136..148], 0, 0) == Number(1136102400)
            && CString(s[265..297]) == CString(s[297..329]) == [114, 111, 111, 116]
  {
    var m := Made(name, kind, size);
    var mode := if kind == REGULAR then 0x1a4 else 0x1ed;
    hide Octal, Strip, Sum, ParseOctal, CString;
    Pow8Values();
    FieldHolds(m, 100, 8, Octal(mode, 7));
    OctalRoundTrip(mode, 7, Encode(m)[100..108]);
    ZeroBack(m, 108);
    ZeroBack(m, 116);
    FieldHolds(m, 136, 12, Octal(1136102400, 11));
    OctalRoundTrip(1136102400, 11, Encode(m)[136..148]);
    FieldHolds(m, 265, 32, ROOT);
    CStringOf(Encode(m)[265..297], ROOT);
    FieldHolds(m, 297, 32, ROOT);
    CStringOf(Encode(m)[297..329], ROOT);
  }

  lemma {:induction false} ZeroDigits(d: seq<byte>, n: nat)
    requires |d| == n && forall k :: 0 <= k < n ==> d[k] == 48
    ensures Octal(0, n) == d
  {
    if n > 0 { ZeroDigits(d[..n - 1], n - 1); }
  }

  lemma ZeroBack(h: Header, ofs: nat)
    requires h.uid == ZEROS7 == h.gid && (ofs == 108 || ofs == 116)
    ensures ParseOctal(Encode(h)[ofs..ofs + 8], 0, 0) == Number(0)
  {
    hide ParseOctal;
    FieldHolds(h, ofs, 8, ZEROS7);
    assert ZEROS7 == Octal(0, 7) by { ZeroDigits(ZEROS7, 7); }
    Pow8Values();
    OctalRoundTrip(0, 7, Encode(h)[ofs..ofs + 8]);
  }

  // The checksum notices any change of one byte outside its own field.
  lemma OneByteIsNoticed(s: seq<byte>, i: nat, b: byte)
    requires |s| == 512 && Parse(s).Entry? && i < 512 && !(148 <= i < 156) && b != s[i]
    ensures Parse(s[i := b]).Failed?
  {
    hide CString, Strip, ParseOctal;
    SumSeesByte(s, i, b, 512);
    var t := s[i := b];
    assert t[148..156] == s[148..156];
    assert s[263] == 48 && s[264] == 48;
    assert t[if i == 263 then 264 else 263] == 48;
    hide Sum;
  }

  // No name that parsing accepts reaches outside the current directory by a prefix.
  lemma ParsedNameIsSafe(s: seq<byte>)
    requires |s| == 512 && Parse(s).Entry?
    ensures !Antisocial(Parse(s).name) && Parse(s).name != [46, 46] && Parse(s).name != []
  {
    hide CString, Strip, ParseOctal, Sum, AllZeros;
    StripIdempotent(CString(s[..100]));
  }
}
