// Addresses as numbers and as bits.
module Addresses {
  import opened PageTables

  // The 32 bits of a number below 2^32.
  function Bits(n: nat): bv32 {
    Word(n).bits
  }

  function Word(n: nat): Key {
    if n == 0 then K(0) else Shifted(Word(n / 2), n % 2 == 1)
  }

  function Shifted(x: Key, one: bool): Key {
    K(Double(x.bits, one))
  }

  function Next(x: Key): Key {
    K(Plus(x.bits, 1))
  }

  predicate Less(x: Key, y: Key) {
    Below(x.bits, y.bits)
  }

  // The same on the bits themselves.
  function Double(x: bv32, one: bool): bv32 {
    (x << 1) | (if one then 1 else 0)
  }

  function Plus(x: bv32, y: bv32): bv32 {
    x + y
  }

  predicate Below(x: bv32, y: bv32) {
    x < y
  }

  function Place(q: bv32, o: bv32): bv32 {
    (q << 12) | o
  }

  function Nibble(x: bv32, d: bv32): bv32 {
    (x << 4) | d
  }

  lemma WordIs(n: nat)
    ensures Word(n) == Shifted(Word(n / 2), n % 2 == 1) && Word(0) == K(0)
  {
  }

  lemma OneBit(q: nat, o: nat)
    requires o < 2
    ensures Word(2 * q + o) == Shifted(Word(q), o == 1)
  {
    hide *;
    var n := 2 * q + o;
    assert n / 2 == q && n % 2 == o;
    WordIs(n);
  }

  lemma ShiftedNext(x: Key)
    ensures Shifted(x, true) == Next(Shifted(x, false)) && Shifted(Next(x), false) == Next(Shifted(x, true))
  {
    DoubleNext(x.bits);
    hide Double, Plus;
  }

  lemma DoubleNext(x: bv32)
    ensures Double(x, true) == Plus(Double(x, false), 1) && Double(Plus(x, 1), false) == Plus(Double(x, true), 1)
  {
  }

  lemma {:induction false} WordNext(n: nat)
    ensures Word(n + 1) == Next(Word(n))
  {
    hide *;
    var q, o := n / 2, n % 2;
    assert n == 2 * q + o;
    OneBit(q, o);
    ShiftedNext(Word(q));
    if o == 1 {
      WordNext(q);
      OneBit(q + 1, 0);
      assert n + 1 == 2 * (q + 1) + 0;
    } else {
      OneBit(q, 1);
      assert n + 1 == 2 * q + 1;
    }
  }

  // ---- Pages. ----

  // Page q of memory, and the place o in it.
  function InPage(q: Key, o: Key): Key {
    K(Place(q.bits, o.bits))
  }

  function Digit(x: Key, d: Key): Key {
    K(Nibble(x.bits, d.bits))
  }

  lemma TwoBits(q: nat, o: nat)
    requires o < 4
    ensures Word(4 * q + o) == Shifted(Shifted(Word(q), o / 2 == 1), o % 2 == 1)
  {
    hide *;
    var b, c := o / 2, o % 2;
    assert o == 2 * b + c;
    OneBit(2 * q + b, c);
    OneBit(q, b);
    assert 4 * q + o == 2 * (2 * q + b) + c;
  }

  lemma FourBits(q: nat, o: nat)
    requires o < 16
    ensures Word(16 * q + o) == Digit(Word(q), Word(o)) && Less(Word(o), K(0x10))
  {
    hide *;
    var a, b := o / 4, o % 4;
    assert 16 * q + o == 4 * (4 * q + a) + b && o == 4 * a + b && a == 4 * 0 + a;
    TwoBits(4 * q + a, b);
    TwoBits(q, a);
    TwoBits(a, b);
    TwoBits(0, a);
    WordIs(0);
    FourShifts(Word(q), a / 2 == 1, a % 2 == 1, b / 2 == 1, b % 2 == 1);
  }

  lemma FourShifts(x: Key, a: bool, b: bool, c: bool, d: bool)
    ensures var o := Shifted(Shifted(Shifted(Shifted(K(0), a), b), c), d);
            Less(o, K(0x10)) && Shifted(Shifted(Shifted(Shifted(x, a), b), c), d) == Digit(x, o)
  {
    FourDoubles(x.bits, a, b, c, d);
    hide Double, Below, Nibble;
  }

  lemma FourDoubles(x: bv32, a: bool, b: bool, c: bool, d: bool)
    ensures var o := Double(Double(Double(Double(0, a), b), c), d);
            Below(o, 0x10) && Double(Double(Double(Double(x, a), b), c), d) == Nibble(x, o)
  {
  }

  lemma TwelveBits(q: nat, o: nat)
    requires o < 4096
    ensures Word(4096 * q + o) == InPage(Word(q), Word(o)) && Less(Word(o), K(0x1000))
  {
    hide *;
    var a, b, c := o % 16, o / 16 % 16, o / 256;
    assert 4096 * q + o == 16 * (256 * q + 16 * c + b) + a && 256 * q + 16 * c + b == 16 * (16 * q + c) + b;
    assert o == 16 * (16 * c + b) + a;
    FourBits(256 * q + 16 * c + b, a);
    FourBits(16 * q + c, b);
    FourBits(q, c);
    FourBits(16 * c + b, a);
    FourBits(c, b);
    ThreeDigits(Word(q), Word(c), Word(b), Word(a));
  }

  lemma ThreeDigits(x: Key, c: Key, b: Key, a: Key)
    requires Less(c, K(0x10)) && Less(b, K(0x10)) && Less(a, K(0x10))
    ensures Less(Digit(Digit(c, b), a), K(0x1000))
    ensures Digit(Digit(Digit(x, c), b), a) == InPage(x, Digit(Digit(c, b), a))
  {
    ThreeNibbles(x.bits, c.bits, b.bits, a.bits);
    hide Nibble, Below, Place;
  }

  lemma ThreeNibbles(x: bv32, c: bv32, b: bv32, a: bv32)
    requires Below(c, 0x10) && Below(b, 0x10) && Below(a, 0x10)
    ensures Below(Nibble(Nibble(c, b), a), 0x1000)
    ensures Nibble(Nibble(Nibble(x, c), b), a) == Place(x, Nibble(Nibble(c, b), a))
  {
  }

  // ---- Order. ----

  lemma ThreeBits(c: nat)
    requires c < 8
    ensures Less(Word(c), K(8))
  {
    hide *;
    var h, l := c / 4, c % 4;
    assert c == 4 * h + l && h == 2 * 0 + h;
    TwoBits(h, l);
    OneBit(0, h);
    WordIs(0);
    ThreeShifts(h == 1, l / 2 == 1, l % 2 == 1);
  }

  lemma ThreeShifts(a: bool, b: bool, c: bool)
    ensures Less(Shifted(Shifted(Shifted(K(0), a), b), c), K(8))
  {
  }

  lemma HalfWord(n: nat)
    requires n < 0x8000_0000
    ensures Less(Word(n), K(0x8000_0000))
  {
    hide *;
    var l, m, h := n % 4096, n / 4096 % 4096, n / 0x100_0000;
    var c, d := h / 16, h % 16;
    assert n == 4096 * (4096 * h + m) + l && h == 16 * c + d;
    TwelveBits(4096 * h + m, l);
    TwelveBits(h, m);
    FourBits(c, d);
    ThreeBits(c);
    DigitsSmall(Word(c), Word(d), Word(m), Word(l));
  }

  lemma DigitsSmall(c: Key, d: Key, m: Key, l: Key)
    requires Less(c, K(8)) && Less(d, K(0x10)) && Less(m, K(0x1000)) && Less(l, K(0x1000))
    ensures Less(InPage(InPage(Digit(c, d), m), l), K(0x8000_0000))
  {
    PlacesSmall(c.bits, d.bits, m.bits, l.bits);
    hide Below, Place, Nibble;
  }

  lemma PlacesSmall(c: bv32, d: bv32, m: bv32, l: bv32)
    requires Below(c, 8) && Below(d, 0x10) && Below(m, 0x1000) && Below(l, 0x1000)
    ensures Below(Place(Place(Nibble(c, d), m), l), 0x8000_0000)
  {
  }

  // Order is kept below 2^32.
  lemma {:induction false} WordOrder(n: nat, m: nat)
    requires n < m < 0x1_0000_0000
    ensures Less(Word(n), Word(m))
  {
    hide *;
    WordIs(n);
    WordIs(m);
    HalfWord(n / 2);
    HalfWord(m / 2);
    if n / 2 < m / 2 { WordOrder(n / 2, m / 2); }
    ShiftedLess(Word(n / 2), Word(m / 2), n % 2 == 1, m % 2 == 1);
  }

  lemma ShiftedLess(x: Key, y: Key, b: bool, c: bool)
    requires Less(x, K(0x8000_0000)) && Less(y, K(0x8000_0000)) && (Less(x, y) || (x == y && !b && c))
    ensures Less(Shifted(x, b), Shifted(y, c))
  {
    DoubleBelow(x.bits, y.bits, b, c);
    hide Double, Below;
  }

  lemma DoubleBelow(x: bv32, y: bv32, b: bool, c: bool)
    requires Below(x, 0x8000_0000) && Below(y, 0x8000_0000) && (Below(x, y) || (x == y && !b && c))
    ensures Below(Double(x, b), Double(y, c))
  {
    hide *;
    if Below(x, y) { DoubledLess(x, y); } else { DoubledSame(x); }
  }

  lemma DoubledSame(x: bv32)
    ensures Below(Double(x, false), Double(x, true))
  {
    assert Double(x, false) == x << 1 && Double(x, true) == (x << 1) | 1 by { OrNothing(x << 1); }
    hide Double;
    RawSame(x);
  }

  lemma DoubledLess(x: bv32, y: bv32)
    requires Below(x, y) && Below(y, 0x8000_0000)
    ensures Below(Double(x, true), Double(y, false)) && Below(Double(x, false), Double(y, false))
    ensures Below(Double(x, true), Double(y, true)) && Below(Double(x, false), Double(y, true))
  {
    assert Double(x, false) == x << 1 && Double(x, true) == (x << 1) | 1 by { OrNothing(x << 1); }
    assert Double(y, false) == y << 1 && Double(y, true) == (y << 1) | 1 by { OrNothing(y << 1); }
    hide Double;
    RawLess(x, y);
  }

  lemma OrNothing(x: bv32)
    ensures x | 0 == x
  {
  }

  lemma RawSame(x: bv32)
    ensures x << 1 < (x << 1) | 1
  {
  }

  lemma RawLess(x: bv32, y: bv32)
    requires x < y < 0x8000_0000
    ensures (x << 1) | 1 < y << 1 && x << 1 < y << 1 && (x << 1) | 1 < (y << 1) | 1 && x << 1 < (y << 1) | 1
  {
  }

  // ---- Addresses. ----

  // The page of an address, and the next page.
  lemma PageBits(n: nat)
    ensures RoundDown(Bits(n)) == Bits(n - n % 4096) && PgOfs(Bits(n - n % 4096)) == 0
    ensures Bits(n - n % 4096 + 4096) == Plus(Bits(n - n % 4096), 4096)
  {
    var q, o := n / 4096, n % 4096;
    hide *;
    TwelveBits(q, o);
    TwelveBits(q, 0);
    TwelveBits(q + 1, 0);
    WordNext(q);
    WordIs(0);
    assert n == 4096 * q + o && n - o == 4096 * q && 4096 * q + 4096 == 4096 * (q + 1);
    Paged(Word(q), Word(o));
    BitsAre(n);
    BitsAre(n - o);
    BitsAre(n - o + 4096);
  }

  lemma BitsAre(n: nat)
    ensures Bits(n) == Word(n).bits
  {
  }

  lemma Paged(x: Key, o: Key)
    requires Less(o, K(0x1000))
    ensures RoundDown(InPage(x, o).bits) == InPage(x, K(0)).bits && PgOfs(InPage(x, K(0)).bits) == 0
    ensures InPage(Next(x), K(0)).bits == Plus(InPage(x, K(0)).bits, 4096)
  {
    PagedBits(x.bits, o.bits);
    hide Place, Below, RoundDown, PgOfs, Plus;
  }

  lemma PagedBits(x: bv32, o: bv32)
    requires Below(o, 0x1000)
    ensures RoundDown(Place(x, o)) == Place(x, 0) && PgOfs(Place(x, 0)) == 0
    ensures Place(Plus(x, 1), 0) == Plus(Place(x, 0), 4096)
  {
  }

  lemma PagesDiffer(n: nat, m: nat)
    requires n < 0x1_0000_0000 && m < 0x1_0000_0000 && n != m
    ensures Bits(n) != Bits(m)
  {
    hide Word;
    if n < m { WordOrder(n, m); } else { WordOrder(m, n); }
  }

  lemma UserBits(n: nat)
    requires n < 0xc000_0000
    ensures UserAddr(Bits(n))
  {
    hide Word;
    WordOrder(n, 0xc000_0000);
    KernelWord();
  }

  // The first address past user memory, and its last page.
  lemma KernelWord()
    ensures Word(0xc000_0000) == K(0xc000_0000) && Word(0xbfff_f000) == K(0xbfff_f000)
  {
    hide *;
    SmallWords();
    TwelveBits(0xc_0000, 0);
    TwelveBits(0xc0, 0);
    FourBits(0xc, 0);
    TwelveBits(0xb_ffff, 0);
    TwelveBits(0xbf, 0xfff);
    FourBits(0xff, 0xf);
    FourBits(0xf, 0xf);
    FourBits(0xb, 0xf);
    Places();
  }

  lemma SmallWords()
    ensures Word(0) == K(0) && Word(0xb) == K(0xb) && Word(0xc) == K(0xc) && Word(0xf) == K(0xf)
  {
  }

  lemma Places()
    ensures InPage(InPage(Digit(K(0xc), K(0)), K(0)), K(0)) == K(0xc000_0000)
    ensures InPage(InPage(Digit(K(0xb), K(0xf)), Digit(Digit(K(0xf), K(0xf)), K(0xf))), K(0)) == K(0xbfff_f000)
  {
  }
}
