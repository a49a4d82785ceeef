// Integer conversions of printf, and atoi.
module Printf {
  import opened Bytes

  // A C string: null from its end on.
  function Ch(s: seq<byte>, p: int): byte {
    if 0 <= p < |s| then s[p] else 0
  }

  predicate IsDigit(c: byte) {
    48 <= c <= 57
  }

  // Space, or one of tab, newline, vertical tab, form feed and return.
  predicate IsSpace(c: byte) {
    c == 32 || 9 <= c <= 13
  }

  // They are as isdigit and isspace have them.
  lemma Classes(c: byte)
    ensures IsDigit(c) <==> c in LOWER[..10]
    ensures IsSpace(c) <==> c in [32, 12, 10, 13, 9, 11]
  {
    if IsDigit(c) { assert LOWER[..10][c - 48] == c; }
  }

  // ---- Decimal digits. ----

  function Repeat(c: byte, n: nat): (r: seq<byte>)
    ensures |r| == n && forall k :: 0 <= k < n ==> r[k] == c
  {
    seq(n, _ => c)
  }

  // The number that a run of digits stands for, from the left.
  function Value(d: seq<byte>): nat {
    if d == [] then 0 else 10 * Value(d[..|d| - 1]) + Digit(d[|d| - 1])
  }

  function Digit(c: byte): nat {
    if IsDigit(c) then c as int - 48 else 0
  }

  function Reverse(s: seq<byte>): (r: seq<byte>)
    ensures |r| == |s| && forall k :: 0 <= k < |s| ==> r[k] == s[|s| - 1 - k]
  {
    seq(|s|, k requires 0 <= k < |s| => s[|s| - 1 - k])
  }

  // ---- atoi. ----

  function SkipSpaces(s: seq<byte>, p: nat): (q: nat)
    requires p <= |s|
    ensures p <= q <= |s| && (q < |s| ==> !IsSpace(s[q])) && forall k :: p <= k < q ==> IsSpace(s[k])
    decreases |s| - p
  {
    if p < |s| && IsSpace(s[p]) then SkipSpaces(s, p + 1) else p
  }

  function DigitsEnd(s: seq<byte>, p: nat): (q: nat)
    requires p <= |s|
    ensures p <= q <= |s| && (q < |s| ==> !IsDigit(s[q])) && forall k :: p <= k < q ==> IsDigit(s[k])
    decreases |s| - p
  {
    if p < |s| && IsDigit(s[p]) then DigitsEnd(s, p + 1) else p
  }

  // What atoi reads: white space, a sign, digits.
  function AtoiOf(s: seq<byte>): int {
    var p := SkipSpaces(s, 0);
    var q := if p < |s| && (s[p] == 43 || s[p] == 45) then p + 1 else p;
    var v: int := Value(s[q..DigitsEnd(s, q)]);
    if p < |s| && s[p] == 45 then -v else v
  }

  predicate Int32(v: int) {
    -0x8000_0000 <= v < 0x8000_0000
  }

  // A prefix of a number is no greater.
  lemma {:induction false} ValuePrefix(d: seq<byte>, n: nat)
    requires n <= |d|
    ensures Value(d[..n]) <= Value(d)
    decreases |d| - n
  {
    if n < |d| {
      ValuePrefix(d, n + 1);
      assert d[..n + 1][..n] == d[..n];
    } else {
      assert d[..n] == d;
    }
  }

  // The digits from position start on, as a negative number.
  method NegatedDigits(s: seq<byte>, start: nat) returns (value: int)
    requires start <= |s| && Value(s[start..DigitsEnd(s, start)]) <= 0x8000_0000
    ensures value == -(Value(s[start..DigitsEnd(s, start)]) as int)
  {
    value := 0;
    var p := start;
    ghost var end := DigitsEnd(s, start);
    while IsDigit(Ch(s, p))
      invariant start <= p <= end && DigitsEnd(s, p) == end
      invariant value == -(Value(s[start..p]) as int) && Int32(value)
      decreases |s| - p
    {
      OneMoreDigit(s, start, p, end);
      value := value * 10 - (s[p] as int - 48);
      p := p + 1;
    }
  }

  lemma OneMoreDigit(s: seq<byte>, start: nat, p: nat, end: nat)
    requires start <= p < end <= |s| && IsDigit(s[p])
    ensures Value(s[start..p + 1]) == 10 * Value(s[start..p]) + (s[p] as int - 48)
    ensures Value(s[start..p + 1]) <= Value(s[start..end])
  {
    var d := s[start..p + 1];
    assert d[..|d| - 1] == s[start..p];
    assert s[start..end][..p + 1 - start] == d;
    ValuePrefix(s[start..end], p + 1 - start);
  }

  // Parses downwards, so that the most negative int needs no special case; no
  // intermediate value leaves the range of an int when the number itself fits.
  method Atoi(s: seq<byte>) returns (value: int)
    requires Int32(AtoiOf(s))
    ensures value == AtoiOf(s)
  {
    var p := 0;
    while p < |s| && IsSpace(s[p])
      invariant p <= |s| && SkipSpaces(s, p) == SkipSpaces(s, 0)
    {
      p := p + 1;
    }
    var negative := false;
    if Ch(s, p) == 43 {
      p := p + 1;
    } else if Ch(s, p) == 45 {
      negative := true;
      p := p + 1;
    }
    value := NegatedDigits(s, p);
    if !negative {
      value := -value;
    }
  }

  // ---- Conversions. ----

  // The flags - + space # 0 ' of a conversion, its width and its precision, -1 for none.
  datatype Conversion = Conversion(minus: bool, plus: bool, space: bool, pound: bool, zero: bool, group: bool,
                                   width: nat, precision: int)

  datatype Base = Base(base: nat, digits: seq<byte>, x: byte, group: nat)

  const LOWER: seq<byte> := [48, 49, 50, 51, 52, 53, 54, 55, 56, 57, 97, 98, 99, 100, 101, 102]

  const BASE_D := Base(10, LOWER[..10], 0, 3)
  const BASE_O := Base(8, LOWER[..8], 0, 3)

  predicate BaseOk(b: Base) {
    8 <= b.base <= |b.digits| && b.group > 0
  }

  predicate IsFlag(c: byte) {
    c == 45 || c == 43 || c == 32 || c == 35 || c == 48 || c == 39
  }

  function FlagsEnd(f: seq<byte>, p: nat): (q: nat)
    requires p <= |f|
    ensures p <= q <= |f| && (q < |f| ==> !IsFlag(f[q])) && forall k :: p <= k < q ==> IsFlag(f[k])
    decreases |f| - p
  {
    if p < |f| && IsFlag(f[p]) then FlagsEnd(f, p + 1) else p
  }

  // The type that the length modifiers hh, h, j, l, ll, t and z give an argument.
  datatype Kind = CHAR | SHORT | INT | INTMAX | LONG | LONGLONG | PTRDIFFT | SIZET

  function KindAt(f: seq<byte>, p: nat): Kind {
    match Ch(f, p)
    case 104 => if Ch(f, p + 1) == 104 then CHAR else SHORT
    case 106 => INTMAX
    case 108 => if Ch(f, p + 1) == 108 then LONGLONG else LONG
    case 116 => PTRDIFFT
    case 122 => SIZET
    case _ => INT
  }

  function KindEnd(f: seq<byte>, p: nat): (q: nat)
    ensures p <= |f| ==> q <= |f|
  {
    match KindAt(f, p)
    case INT => p
    case CHAR => p + 2
    case LONGLONG => p + 2
    case _ => p + 1
  }

  // A signed argument as the conversion takes it: int, long, ptrdiff_t and
  // size_t have 32 bits, intmax_t and long long 64.
  function Fetched(kind: Kind, v: int): int {
    match kind
    case CHAR => Wrapped(v, 0x100)
    case SHORT => Wrapped(v, 0x1_0000)
    case INTMAX => Wrapped(v, 0x1_0000_0000_0000_0000)
    case LONGLONG => Wrapped(v, 0x1_0000_0000_0000_0000)
    case _ => Wrapped(v, 0x1_0000_0000)
  }

  // The number in the signed range of that many values that v is modulo them.
  function Wrapped(v: int, range: int): int
    requires range > 1
  {
    var m := v % range;
    if m < range / 2 then m else m - range
  }

  // It is within its type, and differs from the argument by a multiple of the
  // number of values of the type.
  lemma FetchedFits(kind: Kind, v: int) returns (k: int)
    ensures var values := match kind
                          case CHAR => 0x100
                          case SHORT => 0x1_0000
                          case INTMAX => 0x1_0000_0000_0000_0000
                          case LONGLONG => 0x1_0000_0000_0000_0000
                          case _ => 0x1_0000_0000;
            -values <= 2 * Fetched(kind, v) < values && v == Fetched(kind, v) + values * k
  {
    k := WrappedBy(v, match kind
                      case CHAR => 0x100
                      case SHORT => 0x1_0000
                      case INTMAX => 0x1_0000_0000_0000_0000
                      case LONGLONG => 0x1_0000_0000_0000_0000
                      case _ => 0x1_0000_0000);
    hide Wrapped;
  }

  lemma WrappedBy(v: int, range: int) returns (k: int)
    requires range > 1 && range % 2 == 0
    ensures -range <= 2 * Wrapped(v, range) < range && v == Wrapped(v, range) + range * k
  {
    k := if v % range < range / 2 then v / range else v / range + 1;
    assert v == range * (v / range) + v % range;
  }

  // An int that is one is taken as it is.
  lemma IntFetched(v: int)
    ensures Int32(Fetched(INT, v)) && (Int32(v) ==> Fetched(INT, v) == v)
  {
  }

  // Where a width ends that starts at e, and a precision at w.
  function WidthEnd(f: seq<byte>, e: nat): (w: nat)
    requires e <= |f|
    ensures e <= w <= |f|
  {
    if Ch(f, e) == 42 then e + 1 else DigitsEnd(f, e)
  }

  function PrecisionEnd(f: seq<byte>, w: nat): (p: nat)
    requires w <= |f|
    ensures w <= p <= |f|
  {
    if Ch(f, w) != 46 then w else if Ch(f, w + 1) == 42 then w + 2 else DigitsEnd(f, w + 1)
  }

  // A negative width comes from a '*' only.
  function WidthOf(f: seq<byte>, e: nat, args: seq<int>): int
    requires e <= |f| && args != []
  {
    if Ch(f, e) == 42 then args[0] else Value(f[e..WidthEnd(f, e)])
  }

  function PrecisionOf(f: seq<byte>, e: nat, w: nat, args: seq<int>): int
    requires e <= w <= |f| && |args| >= 2
  {
    if Ch(f, w) != 46 then -1
    else if Ch(f, w + 1) == 42 then Max(args[if Ch(f, e) == 42 then 1 else 0], -1)
    else Value(f[w + 1..PrecisionEnd(f, w)])
  }

  // What the characters from start on say of a conversion.
  ghost predicate Parsed(f: seq<byte>, start: nat, args: seq<int>, c: Conversion)
    requires start <= |f| && |args| >= 2
  {
    var e := FlagsEnd(f, start);
    var flags, width := f[start..e], WidthOf(f, e, args);
    && c.group == (39 in flags) && c.pound == (35 in flags) && c.plus == (43 in flags)
    && c.space == (32 in flags && 43 !in flags)
    && c.width == Abs(width) && c.minus == (45 in flags || width < 0)
    && c.precision == PrecisionOf(f, e, WidthEnd(f, e), args)
    && c.zero == (48 in flags && 45 !in flags && c.precision < 0)
  }

  // Where its type modifiers are.
  function OptionsEnd(f: seq<byte>, start: nat): (p: nat)
    requires start <= |f|
    ensures start <= p <= |f|
  {
    PrecisionEnd(f, WidthEnd(f, FlagsEnd(f, start)))
  }

  // parse_conversion, for arguments that supply a width or precision given as '*'.
  method ParseConversion(f: seq<byte>, start: nat, args: seq<int>) returns (c: Conversion, kind: Kind, pos: nat)
    requires start <= |f| && |args| >= 2
    ensures Parsed(f, start, args, c)
    ensures kind == KindAt(f, OptionsEnd(f, start)) && pos == KindEnd(f, OptionsEnd(f, start)) <= |f|
  {
    hide DigitsEnd, FlagsEnd, Value;
    var flags, width, precision, used;
    flags, pos := ParseFlags(f, start);
    width, pos, used := ParseWidth(f, pos, args);
    var minus := flags.minus;
    if width < 0 {
      width := -width;
      minus := true;
    }
    precision, pos := ParsePrecision(f, pos, args, used);
    c := flags.(minus := minus, width := width, precision := precision, zero := flags.zero && precision < 0);
    kind, pos := ParseKind(f, pos);
  }

  method ParseKind(f: seq<byte>, start: nat) returns (kind: Kind, pos: nat)
    requires start <= |f|
    ensures kind == KindAt(f, start) && pos == KindEnd(f, start)
  {
    kind, pos := INT, start + 1;
    match Ch(f, start) {
      case 104 =>
        if Ch(f, pos) == 104 {
          pos := pos + 1;
          kind := CHAR;
        } else {
          kind := SHORT;
        }
      case 106 => kind := INTMAX;
      case 108 =>
        if Ch(f, pos) == 108 {
          pos := pos + 1;
          kind := LONGLONG;
        } else {
          kind := LONG;
        }
      case 116 => kind := PTRDIFFT;
      case 122 => kind := SIZET;
      case _ => pos := pos - 1;
    }
  }

  method ParseWidth(f: seq<byte>, start: nat, args: seq<int>) returns (width: int, pos: nat, used: nat)
    requires start <= |f| && args != []
    ensures pos == WidthEnd(f, start) && width == WidthOf(f, start, args)
    ensures used == if Ch(f, start) == 42 then 1 else 0
  {
    if Ch(f, start) == 42 {
      return args[0], start + 1, 1;
    }
    width, pos := Digits(f, start);
    used := 0;
  }

  // The flags as they are written.
  function FlagsOf(flags: seq<byte>): Conversion {
    Conversion(45 in flags, 43 in flags, 32 in flags, 35 in flags, 48 in flags, 39 in flags, 0, -1)
  }

  function WithFlag(c: Conversion, ch: byte): Conversion {
    match ch
    case 45 => c.(minus := true)
    case 43 => c.(plus := true)
    case 32 => c.(space := true)
    case 35 => c.(pound := true)
    case 48 => c.(zero := true)
    case _ => c.(group := true)
  }

  lemma OneMoreFlag(flags: seq<byte>, ch: byte)
    requires IsFlag(ch)
    ensures FlagsOf(flags + [ch]) == WithFlag(FlagsOf(flags), ch)
  {
  }

  method ParseFlags(f: seq<byte>, start: nat) returns (c: Conversion, pos: nat)
    requires start <= |f|
    ensures pos == FlagsEnd(f, start)
    ensures var flags := FlagsOf(f[start..pos]);
            c == flags.(space := flags.space && !flags.plus, zero := flags.zero && !flags.minus)
  {
    c := Conversion(false, false, false, false, false, false, 0, -1);
    pos := start;
    while IsFlag(Ch(f, pos))
      invariant start <= pos <= |f| && FlagsEnd(f, pos) == FlagsEnd(f, start)
      invariant c == FlagsOf(f[start..pos])
      decreases |f| - pos
    {
      hide FlagsOf;
      assert f[start..pos + 1] == f[start..pos] + [f[pos]];
      OneMoreFlag(f[start..pos], f[pos]);
      c := WithFlag(c, f[pos]);
      pos := pos + 1;
    }
    if c.minus { c := c.(zero := false); }
    if c.plus { c := c.(space := false); }
  }

  method ParsePrecision(f: seq<byte>, start: nat, args: seq<int>, used: nat) returns (precision: int, pos: nat)
    requires start <= |f| && used < |args|
    ensures pos == PrecisionEnd(f, start) && precision >= -1
    ensures Ch(f, start) != 46 ==> precision == -1
    ensures Ch(f, start) == 46 && Ch(f, start + 1) != 42 ==> precision == Value(f[start + 1..pos])
    ensures Ch(f, start) == 46 && Ch(f, start + 1) == 42 ==> precision == Max(args[used], -1)
  {
    precision, pos := -1, start;
    if Ch(f, pos) == 46 {
      pos := pos + 1;
      if Ch(f, pos) == 42 {
        pos := pos + 1;
        precision := args[used];
      } else {
        precision, pos := Digits(f, pos);
      }
      if precision < 0 { precision := -1; }
    }
  }

  function Abs(x: int): nat {
    if x < 0 then -x else x
  }

  function Max(x: int, y: int): (r: int)
    ensures r >= x && r >= y && (r == x || r == y)
  {
    if x < y then y else x
  }

  method Digits(f: seq<byte>, start: nat) returns (v: nat, pos: nat)
    requires start <= |f|
    ensures pos == DigitsEnd(f, start) && v == Value(f[start..pos])
  {
    v, pos := 0, start;
    while IsDigit(Ch(f, pos))
      invariant start <= pos <= |f| && DigitsEnd(f, pos) == DigitsEnd(f, start) && v == Value(f[start..pos])
      decreases |f| - pos
    {
      OneMoreDigit(f, start, pos, pos + 1);
      v := v * 10 + f[pos] as int - 48;
      pos := pos + 1;
    }
  }

  // ---- Output into a buffer of limited size. ----

  class Sink {
    const buffer: array<byte>
    const maxLength: nat
    var p: nat
    var length: nat
    ghost var sent: seq<byte>

    ghost predicate Valid()
      reads this, buffer
    {
      && length == |sent| && p == (if length < maxLength then length else maxLength)
      && (maxLength > 0 ==> maxLength < buffer.Length) && p <= buffer.Length && buffer[..p] == sent[..p]
    }

    // vsnprintf's record for a buffer of bufSize bytes.
    constructor (buffer: array<byte>)
      ensures Valid() && sent == [] && this.buffer == buffer
      ensures maxLength == if buffer.Length > 0 then buffer.Length - 1 else 0
    {
      this.buffer := buffer;
      maxLength := if buffer.Length > 0 then buffer.Length - 1 else 0;
      p, length, sent := 0, 0, [];
    }

    // vsnprintf_helper.
    method Put(ch: byte)
      requires Valid()
      modifies this, buffer
      ensures Valid() && sent == old(sent) + [ch]
    {
      if length < maxLength {
        buffer[p] := ch;
        p := p + 1;
      }
      length := length + 1;
      sent := sent + [ch];
    }

    // output_dup.
    method Dup(ch: byte, cnt: nat)
      requires Valid()
      modifies this, buffer
      ensures Valid() && sent == old(sent) + Repeat(ch, cnt)
    {
      for i := 0 to cnt
        invariant Valid() && sent == old(sent) + Repeat(ch, i)
      {
        Put(ch);
      }
    }
  }

  // ---- format_integer. ----

  // The digits of a value, the last one first, with commas between groups; k have gone before.
  function Places(value: nat, b: Base, group: bool, k: nat): seq<byte>
    requires BaseOk(b)
  {
    if value == 0 then []
    else (if group && k > 0 && k % b.group == 0 then [44] else []) + [b.digits[value % b.base]]
         + Places(value / b.base, b, group, k + 1)
  }

  function ToPrecision(s: seq<byte>, precision: int): (r: seq<byte>)
    ensures s <= r && |r| == (if |s| < precision && |s| < 63 then if precision < 63 then precision else 63 else |s|)
  {
    s + Repeat(48, if |s| < precision && |s| < 63 then (if precision < 63 then precision else 63) - |s| else 0)
  }

  // The buffer of digits, still reversed.
  function Digital(value: nat, b: Base, c: Conversion): seq<byte>
    requires BaseOk(b)
  {
    var s := ToPrecision(Places(value, b, c.group, 0), if c.precision < 0 then 1 else c.precision);
    if c.pound && b.base == 8 && (s == [] || s[|s| - 1] != 48) then s + [48] else s
  }

  function Sign(isSigned: bool, negative: bool, c: Conversion): seq<byte> {
    if !isSigned then []
    else if negative then [45]
    else if c.plus then [43]
    else if c.space then [32]
    else []
  }

  // One character at most, which the flags and the sign of the value choose.
  lemma SignCharacter(isSigned: bool, negative: bool, c: Conversion)
    ensures var s := Sign(isSigned, negative, c);
            && (s == ['-' as int] <==> isSigned && negative)
            && (s == ['+' as int] <==> isSigned && !negative && c.plus)
            && (s == [' ' as int] <==> isSigned && !negative && !c.plus && c.space)
            && (s == [] <==> !isSigned || (!negative && !c.plus && !c.space))
  {
  }

  function Prefix(value: nat, b: Base, c: Conversion): seq<byte> {
    if c.pound && value > 0 && b.x != 0 then [48, b.x] else []
  }

  function PadCount(value: nat, isSigned: bool, negative: bool, b: Base, c: Conversion): nat
    requires BaseOk(b)
  {
    var n := |Sign(isSigned, negative, c)| + |Prefix(value, b, c)| + |Digital(value, b, c)|;
    if c.width > n then c.width - n else 0
  }

  // The text of a conversion.
  function Formatted(value: nat, isSigned: bool, negative: bool, b: Base, c: Conversion): seq<byte>
    requires BaseOk(b)
  {
    var pad := PadCount(value, isSigned, negative, b, c);
    Whole(Repeat(32, if c.minus || c.zero then 0 else pad), Sign(isSigned, negative, c), Prefix(value, b, c),
          Repeat(48, if c.zero then pad else 0), Reverse(Digital(value, b, c)), Repeat(32, if c.minus then pad else 0))
  }

  function Whole(lead: seq<byte>, sign: seq<byte>, prefix: seq<byte>, zeros: seq<byte>, digits: seq<byte>,
                 trail: seq<byte>): seq<byte> {
    lead + sign + prefix + zeros + digits + trail
  }

  function Pow8(n: nat): nat {
    if n == 0 then 1 else 8 * Pow8(n - 1)
  }

  // A 64-bit value has at most 22 digits, and as many commas at most.
  lemma {:induction false} PlacesFit(value: nat, b: Base, group: bool, k: nat, n: nat)
    requires BaseOk(b) && value < Pow8(n)
    ensures |Places(value, b, group, k)| <= 2 * n
    decreases n
  {
    if value > 0 {
      QuotientSmaller(value, b.base, Pow8(n - 1));
      PlacesFit(value / b.base, b, group, k + 1, n - 1);
    }
  }

  lemma QuotientSmaller(value: nat, base: nat, bound: nat)
    requires base >= 8 && value < 8 * bound
    ensures value / base < bound
  {
    var q := value / base;
    assert value >= q * base;
    if q >= bound { MulUp(q, base); }
  }

  lemma MulUp(q: nat, base: nat)
    requires base >= 8
    ensures q * base >= 8 * q
  {
    assert q * base == q * 8 + q * (base - 8);
  }

  // "Accumulate digits into buffer", and the zeros that the precision asks for.
  method Accumulate(value: nat, b: Base, c: Conversion, buf: array<byte>) returns (cp: nat)
    requires BaseOk(b) && value < 0x1_0000_0000_0000_0000 && buf.Length == 64
    modifies buf
    ensures cp <= 64 && buf[..cp] == Digital(value, b, c)
  {
    hide Digital, ToPrecision;
    cp := PutPlaces(value, b, c, buf);
    var precision := if c.precision < 0 then 1 else c.precision;
    ghost var digits, n := buf[..cp], cp;
    while cp < precision && cp < 63
      invariant n <= cp <= (if n < 63 then 63 else n) && buf[..cp] == digits + Repeat(48, cp - n)
      invariant cp > n ==> cp <= precision
      decreases 64 - cp
    {
      buf[cp] := 48;
      cp := cp + 1;
    }
    Padded(digits, precision, buf[..cp]);
    if c.pound && b.base == 8 && (cp == 0 || buf[cp - 1] != 48) {
      buf[cp] := 48;
      cp := cp + 1;
    }
    DigitalIs(value, b, c, precision);
  }

  lemma Padded(s: seq<byte>, precision: int, r: seq<byte>)
    requires |s| <= |r| && r == s + Repeat(48, |r| - |s|) && (|r| > |s| ==> |r| <= precision && |r| <= 63)
    requires |r| >= precision || |r| >= 63
    ensures r == ToPrecision(s, precision)
  {
  }

  lemma DigitalIs(value: nat, b: Base, c: Conversion, precision: int)
    requires BaseOk(b) && precision == if c.precision < 0 then 1 else c.precision
    ensures var s := ToPrecision(Places(value, b, c.group, 0), precision);
            Digital(value, b, c) == if c.pound && b.base == 8 && (s == [] || s[|s| - 1] != 48) then s + [48] else s
  {
  }

  method PutPlaces(value: nat, b: Base, c: Conversion, buf: array<byte>) returns (cp: nat)
    requires BaseOk(b) && value < 0x1_0000_0000_0000_0000 && buf.Length == 64
    modifies buf
    ensures cp <= 44 && buf[..cp] == Places(value, b, c.group, 0)
  {
    SixtyFourBits();
    PlacesFit(value, b, c.group, 0, 22);
    ghost var all := Places(value, b, c.group, 0);
    hide Pow8, Places;
    cp := 0;
    var v: nat, digitCnt: nat := value, 0;
    assert buf[..0] + all == all;
    while v > 0
      invariant cp <= |all| <= 44 && buf[..cp] + Places(v, b, c.group, digitCnt) == all
      decreases v
    {
      cp, v := PutPlace(v, b, c, digitCnt, buf, cp, all);
      digitCnt := digitCnt + 1;
    }
    NoPlaces(b, c.group, digitCnt);
    assert buf[..cp] + [] == buf[..cp];
  }

  lemma NoPlaces(b: Base, group: bool, k: nat)
    requires BaseOk(b)
    ensures Places(0, b, group, k) == []
  {
  }

  method PutPlace(v: nat, b: Base, c: Conversion, digitCnt: nat, buf: array<byte>, cp: nat, ghost all: seq<byte>)
    returns (next: nat, v': nat)
    requires BaseOk(b) && v > 0 && buf.Length == 64 && cp <= |all| <= 44
    requires buf[..cp] + Places(v, b, c.group, digitCnt) == all
    modifies buf
    ensures next <= |all| && v' < v && buf[..next] + Places(v', b, c.group, digitCnt + 1) == all
  {
    hide Places;
    OnePlace(buf[..cp], v, b, c.group, digitCnt);
    next := cp;
    if c.group && digitCnt > 0 && digitCnt % b.group == 0 {
      buf[next] := 44;
      next := next + 1;
    }
    buf[next] := b.digits[v % b.base];
    next := next + 1;
    v' := v / b.base;
  }

  lemma OnePlace(s: seq<byte>, v: nat, b: Base, group: bool, k: nat)
    requires BaseOk(b) && v > 0
    ensures v / b.base < v
    ensures var here := (if group && k > 0 && k % b.group == 0 then [44] else []) + [b.digits[v % b.base]];
            s + Places(v, b, group, k) == (s + here) + Places(v / b.base, b, group, k + 1)
  {
    QuotientSmaller(v, b.base, v);
  }

  lemma SixtyFourBits()
    ensures Pow8(22) == 0x4_0000_0000_0000_0000
  {
    assert Pow8(5) == 0x8000 && Pow8(10) == 0x4000_0000;
    assert Pow8(15) == 0x2000_0000_0000 && Pow8(20) == 0x1000_0000_0000_0000;
  }

  method FormatInteger(value: nat, isSigned: bool, negative: bool, b: Base, c: Conversion, sink: Sink)
    requires BaseOk(b) && value < 0x1_0000_0000_0000_0000 && sink.Valid()
    modifies sink, sink.buffer
    ensures sink.Valid() && sink.sent == old(sink.sent) + Formatted(value, isSigned, negative, b, c)
  {
    hide *;
    var sign := SignChar(isSigned, negative, c);
    FormattedIs(value, isSigned, negative, b, c);
    var x := if c.pound && value != 0 then b.x else 0;
    var buf := new byte[64];
    var cp := Accumulate(value, b, c, buf);
    var padCnt: int := c.width - cp - (if x != 0 then 2 else 0) - (if sign != 0 then 1 else 0);
    if padCnt < 0 {
      padCnt := 0;
    }
    WidthLeft(value, isSigned, negative, b, c);
    Emit(c, padCnt, sign, x, buf, cp, sink);
  }

  // The sign character, if any.
  method SignChar(isSigned: bool, negative: bool, c: Conversion) returns (sign: byte)
    ensures (if sign != 0 then [sign] else []) == Sign(isSigned, negative, c)
  {
    sign := 0;
    if isSigned {
      if c.plus {
        sign := if negative then 45 else 43;
      } else if c.space {
        sign := if negative then 45 else 32;
      } else if negative {
        sign := 45;
      }
    }
  }

  lemma FormattedIs(value: nat, isSigned: bool, negative: bool, b: Base, c: Conversion)
    requires BaseOk(b)
    ensures var pad := PadCount(value, isSigned, negative, b, c);
            Formatted(value, isSigned, negative, b, c) ==
            Whole(Repeat(32, if c.minus || c.zero then 0 else pad), Sign(isSigned, negative, c), Prefix(value, b, c),
                  Repeat(48, if c.zero then pad else 0), Reverse(Digital(value, b, c)), Repeat(32, if c.minus then pad else 0))
  {
    hide Repeat, Reverse, Digital, PadCount, Sign, Prefix;
  }

  // The padding fills the width, as far as it is not taken.
  lemma WidthLeft(value: nat, isSigned: bool, negative: bool, b: Base, c: Conversion)
    requires BaseOk(b)
    ensures var x := if c.pound && value != 0 then b.x else 0;
            && (if x != 0 then [48, x] else []) == Prefix(value, b, c)
            && var padCnt := c.width - |Digital(value, b, c)| - (if x != 0 then 2 else 0) - |Sign(isSigned, negative, c)|;
               PadCount(value, isSigned, negative, b, c) == if padCnt < 0 then 0 else padCnt
  {
    hide Digital;
  }

  // "Do output."
  method Emit(c: Conversion, padCnt: nat, sign: byte, x: byte, buf: array<byte>, cp: nat, sink: Sink)
    requires sink.Valid() && cp <= buf.Length && buf != sink.buffer
    modifies sink, sink.buffer
    ensures sink.Valid()
    ensures sink.sent == old(sink.sent) +
              Whole(Repeat(32, if c.minus || c.zero then 0 else padCnt), if sign != 0 then [sign] else [],
                    if x != 0 then [48, x] else [], Repeat(48, if c.zero then padCnt else 0),
                    Reverse(old(buf[..cp])), Repeat(32, if c.minus then padCnt else 0))
  {
    hide Repeat, Reverse;
    ghost var was := sink.sent;
    DupIf(!c.minus && !c.zero, 32, padCnt, sink);
    EmitPrefix(sign, x, sink);
    DupIf(c.zero, 48, padCnt, sink);
    EmitReversed(buf, cp, sink);
    DupIf(c.minus, 32, padCnt, sink);
    Regroup(was, Repeat(32, if c.minus || c.zero then 0 else padCnt), if sign != 0 then [sign] else [],
            if x != 0 then [48, x] else [], Repeat(48, if c.zero then padCnt else 0), Reverse(buf[..cp]),
            Repeat(32, if c.minus then padCnt else 0));
  }

  method EmitPrefix(sign: byte, x: byte, sink: Sink)
    requires sink.Valid()
    modifies sink, sink.buffer
    ensures sink.Valid()
    ensures sink.sent == old(sink.sent) + (if sign != 0 then [sign] else []) + (if x != 0 then [48, x] else [])
  {
    if sign != 0 { sink.Put(sign); }
    if x != 0 {
      sink.Put(48);
      sink.Put(x);
    }
  }

  lemma Regroup(o: seq<byte>, a: seq<byte>, b: seq<byte>, d: seq<byte>, e: seq<byte>, f: seq<byte>, g: seq<byte>)
    ensures o + a + b + d + e + f + g == o + (a + b + d + e + f + g)
  {
  }

  // One of its paddings.
  method DupIf(wanted: bool, ch: byte, cnt: nat, sink: Sink)
    requires sink.Valid()
    modifies sink, sink.buffer
    ensures sink.Valid() && sink.sent == old(sink.sent) + Repeat(ch, if wanted then cnt else 0)
  {
    if wanted { sink.Dup(ch, cnt); }
  }

  method EmitReversed(buf: array<byte>, cnt: nat, sink: Sink)
    requires sink.Valid() && cnt <= buf.Length && buf != sink.buffer
    modifies sink, sink.buffer
    ensures sink.Valid() && sink.sent == old(sink.sent) + Reverse(buf[..cnt])
  {
    var cp := cnt;
    while cp > 0
      invariant 0 <= cp <= cnt && sink.Valid() && buf[..] == old(buf[..])
      invariant sink.sent == old(sink.sent) + Reverse(buf[..cnt])[..cnt - cp]
    {
      cp := cp - 1;
      sink.Put(buf[cp]);
    }
  }

  // ---- What is printed reads back. ----

  ghost predicate AllDigits(d: seq<byte>) {
    forall k :: 0 <= k < |d| ==> IsDigit(d[k])
  }

  lemma {:induction false} ZerosAreNothing(m: nat, d: seq<byte>)
    ensures Value(Repeat(48, m) + d) == Value(d)
    decreases m + |d|
  {
    var z := Repeat(48, m);
    if d == [] {
      assert z + d == z;
      if m > 0 {
        ZerosAreNothing(m - 1, []);
        assert z[..m - 1] == Repeat(48, m - 1) + [];
      }
    } else {
      var n := |d| - 1;
      ZerosAreNothing(m, d[..n]);
      assert (z + d)[..m + n] == z + d[..n];
    }
  }

  // The digits of a value, put the right way round, stand for it.
  lemma {:induction false} PlacesValue(v: nat, k: nat)
    ensures Value(Reverse(Places(v, BASE_D, false, k))) == v && AllDigits(Reverse(Places(v, BASE_D, false, k)))
    decreases v
  {
    if v > 0 {
      PlacesValue(v / 10, k + 1);
      var rest := Places(v / 10, BASE_D, false, k + 1);
      var d := LOWER[..10][v % 10];
      assert Places(v, BASE_D, false, k) == [] + [d] + rest == [d] + rest;
      DigitOf(v % 10);
      var r := Reverse([d] + rest);
      assert r == Reverse(rest) + [d];
      assert r[..|r| - 1] == Reverse(rest);
    } else {
      assert Reverse([]) == [];
    }
  }

  lemma DigitOf(n: nat)
    requires n < 10
    ensures IsDigit(LOWER[..10][n]) && Digit(LOWER[..10][n]) == n
  {
    assert LOWER[..10][n] == 48 + n;
  }

  // Zeros on the left, and the digits.
  lemma DigitalValue(v: nat, c: Conversion, zeros: nat)
    requires !c.group
    ensures var d := Repeat(48, zeros) + Reverse(Digital(v, BASE_D, c)); Value(d) == v && AllDigits(d)
  {
    var s := Places(v, BASE_D, false, 0);
    var t := Digital(v, BASE_D, c);
    var m := |t| - |s|;
    assert t == s + Repeat(48, m);
    var r := Reverse(s);
    PlacesValue(v, 0);
    hide Places, Digital;
    assert Reverse(t) == Repeat(48, m) + r;
    assert Repeat(48, zeros) + Reverse(t) == Repeat(48, zeros + m) + r;
    ZerosAreNothing(zeros + m, r);
  }

  lemma SkipExactly(s: seq<byte>, n: nat)
    requires n <= |s| && (forall k :: 0 <= k < n ==> IsSpace(s[k])) && (n < |s| ==> !IsSpace(s[n]))
    ensures SkipSpaces(s, 0) == n
  {
  }

  lemma DigitsExactly(s: seq<byte>, q: nat, e: nat)
    requires q <= e <= |s| && (forall k :: q <= k < e ==> IsDigit(s[k])) && (e < |s| ==> !IsDigit(s[e]))
    ensures DigitsEnd(s, q) == e
  {
  }

  // Spaces, a sign or not, digits, spaces.
  lemma AtoiOfParts(n: nat, sign: seq<byte>, d: seq<byte>, m: nat)
    requires AllDigits(d) && (sign == [] || sign == [43] || sign == [45] || sign == [32])
    ensures AtoiOf(Repeat(32, n) + sign + d + Repeat(32, m)) ==
            if sign == [45] then -(Value(d) as int) else Value(d)
  {
    hide AtoiOf, Value;
    if sign == [32] {
      assert Repeat(32, n) + [32] == Repeat(32, n + 1);
      AtoiOfDigits(n + 1, d, m);
    } else if sign == [] {
      assert Repeat(32, n) + [] == Repeat(32, n);
      AtoiOfDigits(n, d, m);
    } else {
      var s := Repeat(32, n) + sign + d + Repeat(32, m);
      PartsAt(n, sign, d, m);
      AtoiSteps(s, n, n + 1, n + 1 + |d|);
      assert s[n + 1..n + 1 + |d|] == d;
    }
  }

  lemma AtoiOfDigits(n: nat, d: seq<byte>, m: nat)
    requires AllDigits(d)
    ensures AtoiOf(Repeat(32, n) + d + Repeat(32, m)) == Value(d)
  {
    hide AtoiOf, Value;
    var s := Repeat(32, n) + d + Repeat(32, m);
    if d == [] {
      AtoiSteps(s, n + m, n + m, n + m);
      assert s[n + m..n + m] == d;
    } else {
      PartsAt(n, [], d, m);
      assert Repeat(32, n) + [] == Repeat(32, n);
      AtoiSteps(s, n, n, n + |d|);
      assert s[n..n + |d|] == d;
    }
  }

  // Where atoi goes from the spaces to the sign and the digits.
  lemma AtoiSteps(s: seq<byte>, p: nat, q: nat, e: nat)
    requires p <= q <= e <= |s| && (forall k :: 0 <= k < p ==> IsSpace(s[k])) && (p < |s| ==> !IsSpace(s[p]))
    requires q == if p < |s| && (s[p] == 43 || s[p] == 45) then p + 1 else p
    requires (forall k :: q <= k < e ==> IsDigit(s[k])) && (e < |s| ==> !IsDigit(s[e]))
    ensures AtoiOf(s) == if p < |s| && s[p] == 45 then -(Value(s[q..e]) as int) else Value(s[q..e])
  {
    hide Value;
    SkipExactly(s, p);
    DigitsExactly(s, q, e);
  }

  lemma PartsAt(n: nat, sign: seq<byte>, d: seq<byte>, m: nat)
    requires AllDigits(d) && (sign == [] || sign == [43] || sign == [45]) && (sign != [] || d != [])
    ensures var s, q := Repeat(32, n) + sign + d + Repeat(32, m), n + |sign|;
            && q + |d| <= |s| && n < |s| && (forall k :: 0 <= k < n ==> IsSpace(s[k])) && !IsSpace(s[n])
            && (forall k :: q <= k < q + |d| ==> IsDigit(s[k]) && s[k] == d[k - q])
            && (q + |d| < |s| ==> !IsDigit(s[q + |d|]))
            && (sign != [] ==> s[n] == sign[0]) && (sign == [] ==> s[n] == d[0])
  {
  }

  // The text of any signed decimal conversion without grouping, read by atoi.
  lemma PrintedReadsBack(v: int, c: Conversion)
    requires !c.group
    ensures AtoiOf(Formatted(Abs(v), true, v < 0, BASE_D, c)) == v
  {
    var pad := PadCount(Abs(v), true, v < 0, BASE_D, c);
    var sign := Sign(true, v < 0, c);
    var zeros := if c.zero then pad else 0;
    DigitalValue(Abs(v), c, zeros);
    var d := Repeat(48, zeros) + Reverse(Digital(Abs(v), BASE_D, c));
    var n, m := if c.minus || c.zero then 0 else pad, if c.minus then pad else 0;
    hide AtoiOf, Value, PadCount, Digital, Repeat, Reverse;
    AtoiOfParts(n, sign, d, m);
    assert Prefix(Abs(v), BASE_D, c) == [];
    Regroup5(Repeat(32, n), sign, Repeat(48, zeros), Reverse(Digital(Abs(v), BASE_D, c)), Repeat(32, m));
  }

  lemma Regroup5(a: seq<byte>, b: seq<byte>, e: seq<byte>, f: seq<byte>, g: seq<byte>)
    ensures a + b + [] + e + f + g == a + b + (e + f) + g
  {
  }

  // The text is as long as the width asks, unless both - and 0 are in force:
  // then the padding comes twice.
  lemma PrintedLength(v: int, c: Conversion)
    ensures var bare := |Formatted(Abs(v), true, v < 0, BASE_D, c.(width := 0))|;
            var n := |Formatted(Abs(v), true, v < 0, BASE_D, c)|;
            && bare == |Sign(true, v < 0, c)| + |Digital(Abs(v), BASE_D, c)|
            && (n == (if c.width > bare then c.width else bare) <==> !(c.minus && c.zero) || c.width <= bare)
            && (c.minus && c.zero && c.width > bare ==> n == c.width + (c.width - bare))
  {
    assert Digital(Abs(v), BASE_D, c.(width := 0)) == Digital(Abs(v), BASE_D, c);
    hide Digital;
  }

  // That takes a 0 flag and a width given by a negative argument.
  lemma BothFlags(f: seq<byte>, args: seq<int>, c: Conversion)
    requires |f| > 0 && |args| >= 2 && Parsed(f, 1, args, c)
    ensures var e := FlagsEnd(f, 1);
            c.minus && c.zero <==> 48 in f[1..e] && 45 !in f[1..e] && Ch(f, e) == 42 && args[0] < 0
                                   && PrecisionOf(f, e, e + 1, args) == -1
  {
    hide FlagsEnd, DigitsEnd, Value;
  }

  // vsnprintf for a format that is one conversion of a signed integer: "%",
  // flags, width, precision, type modifiers and "d" or "i".
  method SnprintfInt(buffer: array<byte>, f: seq<byte>, args: seq<int>, arg: int)
    returns (length: nat, ghost text: seq<byte>, ghost c: Conversion)
    requires |f| > 0 && f[0] == 37 && |args| >= 2
    requires var p := KindEnd(f, OptionsEnd(f, 1)); p + 1 == |f| && (f[p] == 100 || f[p] == 105)
    modifies buffer
    ensures var n := if length < buffer.Length then length else buffer.Length - 1;
            length == |text| && (buffer.Length > 0 ==> buffer[..n] == text[..n] && buffer[n] == 0)
    ensures var v := Fetched(KindAt(f, OptionsEnd(f, 1)), arg);
            && Parsed(f, 1, args, c) && text == Formatted(Abs(v), true, v < 0, BASE_D, c)
            && (39 !in f[1..FlagsEnd(f, 1)] ==> AtoiOf(text) == v)
            && (KindAt(f, OptionsEnd(f, 1)) == INT && Int32(arg) ==> v == arg)
    ensures var v := Fetched(KindAt(f, OptionsEnd(f, 1)), arg);
            var bare := |Formatted(Abs(v), true, v < 0, BASE_D, c.(width := 0))|;
            length == Max(c.width, bare) <==> !(c.minus && c.zero) || c.width <= bare
  {
    hide Value, DigitsEnd, FlagsEnd, Formatted, AtoiOf, KindAt, KindEnd, OptionsEnd, WidthOf, PrecisionOf;
    var conversion, kind, pos := ParseConversion(f, 1, args);
    c := conversion;
    var sink := new Sink(buffer);
    var v := Fetched(kind, arg);
    IntFetched(arg);
    Printed(v, conversion, sink);
    text := Formatted(Abs(v), true, v < 0, BASE_D, c);
    assert [] + text == text;
    if buffer.Length > 0 {
      buffer[sink.p] := 0;
    }
    length := sink.length;
    if !c.group { PrintedReadsBack(v, c); }
    PrintedLength(v, c);
  }

  method Printed(v: int, c: Conversion, sink: Sink)
    requires sink.Valid() && exists kind, arg :: v == Fetched(kind, arg)
    modifies sink, sink.buffer
    ensures sink.Valid() && sink.sent == old(sink.sent) + Formatted(Abs(v), true, v < 0, BASE_D, c)
  {
    hide Formatted;
    FormatInteger(if v < 0 then -v else v, true, v < 0, BASE_D, c, sink);
  }

  // "%0*d" with -3 prints 7 as "00" + "7" + "  ".
  lemma PadsTwice(c: Conversion)
    requires Parsed([37, 48, 42, 100], 1, [-3, 7], c)
    ensures Formatted(7, true, false, BASE_D, c) == [48, 48, 55, 32, 32]
  {
    var f := [37, 48, 42, 100];
    assert FlagsEnd(f, 2) == 2 && FlagsEnd(f, 1) == 2;
    assert f[1..2] == [48];
    assert c == Conversion(true, false, false, false, true, false, 3, -1);
    OneSeven(c);
  }

  lemma OneSeven(c: Conversion)
    requires c == Conversion(true, false, false, false, true, false, 3, -1)
    ensures Formatted(7, true, false, BASE_D, c) == [48, 48, 55, 32, 32]
  {
    assert Places(0, BASE_D, false, 1) == [];
    assert Places(7, BASE_D, false, 0) == [55];
    assert Digital(7, BASE_D, c) == [55];
    assert Reverse([55]) == [55];
    assert Repeat(48, 2) == [48, 48] && Repeat(32, 2) == [32, 32];
  }

  // ---- How a conversion is written. ----

  // A width or precision: left out, taken from an argument, or in digits.
  datatype Size = Absent | Star | Number(digits: seq<byte>)

  function SizeText(s: Size): seq<byte> {
    match s
    case Absent => []
    case Star => [42]
    case Number(d) => d
  }

  function PrecisionText(s: Size): seq<byte> {
    if s.Absent? then [] else [46] + SizeText(s)
  }

  function KindText(kind: Kind): seq<byte> {
    match kind
    case CHAR => [104, 104]
    case SHORT => [104]
    case INT => []
    case INTMAX => [106]
    case LONG => [108]
    case LONGLONG => [108, 108]
    case PTRDIFFT => [116]
    case SIZET => [122]
  }

  // A width does not begin with 0, which would be a flag; a precision may be
  // empty.
  ghost predicate Grammatical(flags: seq<byte>, width: Size, precision: Size) {
    && (forall k :: 0 <= k < |flags| ==> IsFlag(flags[k]))
    && (width.Number? ==> width.digits != [] && width.digits[0] != 48 && AllDigits(width.digits))
    && (precision.Number? ==> AllDigits(precision.digits))
  }

  function Spelled(flags: seq<byte>, width: Size, precision: Size, kind: Kind): seq<byte> {
    flags + (SizeText(width) + (PrecisionText(precision) + (KindText(kind) + [100])))
  }

  ghost predicate Stands(f: seq<byte>, p: nat, x: seq<byte>) {
    p + |x| <= |f| && forall k :: 0 <= k < |x| ==> f[p + k] == x[k]
  }

  // Parsing gives back what was written, wherever it stands.
  lemma SpelledIsParsed(f: seq<byte>, p: nat, flags: seq<byte>, width: Size, precision: Size, kind: Kind, args: seq<int>)
    requires Grammatical(flags, width, precision) && |args| >= 2
    requires Stands(f, p, Spelled(flags, width, precision, kind))
    ensures var e := FlagsEnd(f, p);
            && f[p..e] == flags
            && WidthOf(f, e, args) == (match width case Absent => 0 case Star => args[0] case Number(d) => Value(d))
            && PrecisionOf(f, e, WidthEnd(f, e), args) ==
               (match precision
                case Absent => -1
                case Star => Max(args[if width.Star? then 1 else 0], -1)
                case Number(d) => Value(d))
    ensures KindAt(f, OptionsEnd(f, p)) == kind
    ensures KindEnd(f, OptionsEnd(f, p)) == p + |Spelled(flags, width, precision, kind)| - 1
  {
    hide *;
    SpelledStands(f, p, flags, width, precision, kind);
    var e := p + |flags|;
    FlagsParsed(f, p, flags, width, precision);
    WidthParsed(f, e, flags, width, precision, args);
    PrecisionParsed(f, e, e + |SizeText(width)|, flags, width, precision, args);
    OptionsAre(f, p);
    KindParsed(f, e + |SizeText(width)| + |PrecisionText(precision)|, kind);
  }

  // The parts stand one after the other, and none goes on with what follows it.
  lemma SpelledStands(f: seq<byte>, p: nat, flags: seq<byte>, width: Size, precision: Size, kind: Kind)
    requires Grammatical(flags, width, precision) && Stands(f, p, Spelled(flags, width, precision, kind))
    ensures var e := p + |flags|;
            var w := e + |SizeText(width)|;
            var q := w + |PrecisionText(precision)|;
            && Stands(f, p, flags) && e < |f| && !IsFlag(f[e])
            && Stands(f, e, SizeText(width)) && w < |f| && !IsDigit(f[w]) && f[w] != 42
            && Stands(f, w, PrecisionText(precision)) && q < |f| && !IsDigit(f[q]) && f[q] != 42 && f[q] != 46
            && Stands(f, q, KindText(kind) + [100])
            && p + |Spelled(flags, width, precision, kind)| == q + |KindText(kind)| + 1
  {
    var w, r, k := SizeText(width), PrecisionText(precision), KindText(kind) + [100];
    var e := p + |flags|;
    assert Spelled(flags, width, precision, kind) == flags + (w + (r + k));
    Heads(width, precision, kind);
    hide *;
    Apart(f, p, flags, w + (r + k));
    Apart(f, e, w, r + k);
    Apart(f, e + |w|, r, k);
  }

  // What comes after each part does not go on with it.
  lemma Heads(width: Size, precision: Size, kind: Kind)
    requires Grammatical([], width, precision)
    ensures var k := KindText(kind) + [100];
            var r := PrecisionText(precision) + k;
            && !IsDigit(k[0]) && k[0] != 42 && k[0] != 46
            && !IsDigit(r[0]) && r[0] != 42 && (precision.Absent? ==> r[0] != 46)
            && !IsFlag((SizeText(width) + r)[0])
  {
    var k := KindText(kind) + [100];
    var r := PrecisionText(precision) + k;
    assert r[0] == if precision.Absent? then k[0] else 46;
    assert (SizeText(width) + r)[0] == match width case Absent => r[0] case Star => 42 case Number(d) => d[0];
    assert width.Number? ==> IsDigit(width.digits[0]);
  }

  lemma Apart(f: seq<byte>, p: nat, x: seq<byte>, y: seq<byte>)
    requires Stands(f, p, x + y)
    ensures Stands(f, p, x) && Stands(f, p + |x|, y) && (y != [] ==> p + |x| < |f| && f[p + |x|] == y[0])
  {
    assert forall k :: 0 <= k < |x| ==> (x + y)[k] == x[k];
    assert forall k :: 0 <= k < |y| ==> (x + y)[|x| + k] == y[k];
    forall k | 0 <= k < |y|
      ensures f[p + |x| + k] == y[k]
    {
      assert f[p + (|x| + k)] == (x + y)[|x| + k];
    }
  }

  lemma StandsIs(f: seq<byte>, p: nat, x: seq<byte>)
    requires Stands(f, p, x)
    ensures f[p..p + |x|] == x && forall k :: p <= k < p + |x| ==> f[k] == x[k - p]
  {
    forall k | p <= k < p + |x|
      ensures f[k] == x[k - p]
    {
      assert f[p + (k - p)] == x[k - p];
    }
  }

  lemma OptionsAre(f: seq<byte>, p: nat)
    requires p <= |f|
    ensures OptionsEnd(f, p) == PrecisionEnd(f, WidthEnd(f, FlagsEnd(f, p)))
  {
  }

  lemma FlagsParsed(f: seq<byte>, p: nat, flags: seq<byte>, width: Size, precision: Size)
    requires Grammatical(flags, width, precision) && Stands(f, p, flags)
    requires p + |flags| < |f| && !IsFlag(f[p + |flags|])
    ensures FlagsEnd(f, p) == p + |flags| && f[p..p + |flags|] == flags
  {
    StandsIs(f, p, flags);
    FlagsExactly(f, p, p + |flags|);
  }

  lemma FlagsExactly(f: seq<byte>, p: nat, e: nat)
    requires p <= e < |f| && (forall k :: p <= k < e ==> IsFlag(f[k])) && !IsFlag(f[e])
    ensures FlagsEnd(f, p) == e
  {
  }

  lemma WidthParsed(f: seq<byte>, p: nat, flags: seq<byte>, width: Size, precision: Size, args: seq<int>)
    requires Grammatical(flags, width, precision) && args != [] && Stands(f, p, SizeText(width))
    requires var w := p + |SizeText(width)|; w < |f| && !IsDigit(f[w]) && f[w] != 42
    ensures WidthEnd(f, p) == p + |SizeText(width)| && (Ch(f, p) == 42 <==> width.Star?)
    ensures WidthOf(f, p, args) == match width case Absent => 0 case Star => args[0] case Number(d) => Value(d)
  {
    StandsIs(f, p, SizeText(width));
    if !width.Star? { DigitsExactly(f, p, p + |SizeText(width)|); }
  }

  lemma PrecisionParsed(f: seq<byte>, e: nat, w: nat, flags: seq<byte>, width: Size, precision: Size, args: seq<int>)
    requires Grammatical(flags, width, precision) && |args| >= 2
    requires e <= w && Stands(f, w, PrecisionText(precision)) && (Ch(f, e) == 42 <==> width.Star?)
    requires var p := w + |PrecisionText(precision)|; p < |f| && !IsDigit(f[p]) && f[p] != 42 && f[p] != 46
    ensures PrecisionEnd(f, w) == w + |PrecisionText(precision)|
    ensures PrecisionOf(f, e, w, args) ==
            match precision
            case Absent => -1
            case Star => Max(args[if width.Star? then 1 else 0], -1)
            case Number(d) => Value(d)
  {
    match precision
    case Absent =>
    case Star => StandsIs(f, w, PrecisionText(precision));
    case Number(d) =>
      NumberParsed(f, w, d);
      hide Value, DigitsEnd, IsDigit;
  }

  lemma NumberParsed(f: seq<byte>, w: nat, d: seq<byte>)
    requires AllDigits(d) && Stands(f, w, [46] + d)
    requires w + 1 + |d| < |f| && !IsDigit(f[w + 1 + |d|]) && f[w + 1 + |d|] != 42
    ensures Ch(f, w) == 46 && Ch(f, w + 1) != 42
    ensures DigitsEnd(f, w + 1) == w + 1 + |d| && f[w + 1..w + 1 + |d|] == d
  {
    Apart(f, w, [46], d);
    StandsIs(f, w, [46]);
    StandsIs(f, w + 1, d);
    hide Stands;
    DigitsExactly(f, w + 1, w + 1 + |d|);
    hide DigitsEnd;
  }

  lemma KindParsed(f: seq<byte>, p: nat, kind: Kind)
    requires Stands(f, p, KindText(kind) + [100])
    ensures KindAt(f, p) == kind && KindEnd(f, p) == p + |KindText(kind)|
  {
    StandsIs(f, p, KindText(kind) + [100]);
  }
}
