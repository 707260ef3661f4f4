/** The serial grammar and the printed address, spelled out character by character:
    which texts are serials, why the others are refused, and which digit stands where. */
module EthSerials {
  import opened PyText
  import opened EthMac

  // ------------------------------------------------------------------ the serial

  /** `YYYYWww-IIII`: ASCII digits, a `W` of either case, four ASCII letters or digits. */
  ghost predicate Shaped(s: string) {
    && |s| == 12
    && (forall i | i in {0, 1, 2, 3, 5, 6} :: s[i] in "0123456789")
    && s[4] in "Ww"
    && s[7] == '-'
    && forall i :: 8 <= i < 12 ==> '0' <= s[i] <= '9' || 'A' <= s[i] <= 'Z' || 'a' <= s[i] <= 'z'
  }

  /** One of the look-alikes the alphabet leaves out, in either case. */
  ghost predicate LookAlike(c: char) { c in "ILOUilou" }

  ghost predicate Readable(s: string) {
    Shaped(s) && forall i :: 8 <= i < 12 ==> !LookAlike(s[i])
  }

  const IndexAlphabet: string := "0123456789ABCDEFGHJKMNPQRSTVWXYZ"

  /** `c`, in either case, is the `d`-th character of the alphabet. */
  ghost predicate Spells(c: char, d: int) {
    0 <= d < |IndexAlphabet| && UpperChar(c) == IndexAlphabet[d]
  }

  /** The base-32 digits of `v`, most significant first. */
  ghost function Quintet(v: int, i: int): int {
    (if i == 0 then v / 0x8000 else if i == 1 then v / 0x400 else if i == 2 then v / 0x20 else v) % 32
  }

  ghost predicate SpellsIndex(s: string, v: int) {
    |s| == 12 && 0 <= v < 0x10_0000 && forall i :: 0 <= i < 4 ==> Spells(s[8 + i], Quintet(v, i))
  }

  lemma DigitClass(c: char)
    ensures IsDigit(c) <==> c in "0123456789"
  {
    if IsDigit(c) { assert "0123456789"[c as int - '0' as int] == c; }
  }

  lemma CaseClass(c: char)
    ensures UpperChar(c) == 'W' <==> c in "Ww"
  {
  }

  lemma DigitSpells(c: char, d: nat)
    ensures Digit(UpperChar(c)) == Some(d) <==> Spells(c, d)
  {
    if d < 32 {
      AlphabetReads(d);
      assert Alphabet[d] == IndexAlphabet[d];
    }
    DigitLetter(d, UpperChar(c));
  }

  lemma DigitRefuses(c: char)
    requires Alnum(c)
    ensures Digit(UpperChar(c)).None? <==> LookAlike(c)
  {
  }

  lemma ShapeExact(s: string)
    ensures SerialShape(s) <==> Shaped(s)
  {
    if |s| == 12 {
      forall c ensures (IsDigit(c) <==> c in "0123456789") && (UpperChar(c) == 'W' <==> c in "Ww") { DigitClass(c); CaseClass(c); }
    }
  }

  lemma ValueLast(u: string, k: nat)
    requires 1 <= k <= |u|
    ensures Value(u[..k]) ==
            if Value(u[..k - 1]).None? || Digit(u[k - 1]).None? then None
            else Some(Value(u[..k - 1]).value * 32 + Digit(u[k - 1]).value)
  {
    assert u[..k][..k - 1] == u[..k - 1];
  }

  lemma FourValues(u: string)
    requires |u| == 4
    ensures Value(u).Some? <==> forall i :: 0 <= i < 4 ==> Digit(u[i]).Some?
    ensures Value(u).Some? ==> Value(u).value == Digit(u[0]).value * 0x8000 + Digit(u[1]).value * 0x400 + Digit(u[2]).value * 0x20 + Digit(u[3]).value
  {
    ValueLast(u, 4);
    ValueLast(u, 3);
    ValueLast(u, 2);
    ValueLast(u, 1);
    assert u[..4] == u && u[..0] == [];
  }

  lemma FourDigitsAre(a: nat, b: nat, c: nat, d: nat, v: int)
    requires a < 32 && b < 32 && c < 32 && d < 32
    ensures v == a * 0x8000 + b * 0x400 + c * 0x20 + d
            <==> 0 <= v < 0x10_0000 && v / 0x8000 == a && v / 0x400 % 32 == b && v / 0x20 % 32 == c && v % 32 == d
  {
    if v == a * 0x8000 + b * 0x400 + c * 0x20 + d {
      TakeDigit(v, a * 0x400 + b * 0x20 + c, d);
      TakeDigit(v / 0x20, a * 0x20 + b, c);
      TakeDigit(v / 0x400, a, b);
    }
  }

  lemma TakeDigit(v: int, high: nat, d: nat)
    requires d < 32 && v == high * 32 + d
    ensures v / 32 == high && v % 32 == d
  {
  }

  lemma IndexExact(s: string, v: nat)
    requires SerialShape(s)
    ensures Value(Upper(s[8..12])).None? <==> exists i :: 8 <= i < 12 && LookAlike(s[i])
    ensures Value(Upper(s[8..12])) == Some(v) <==> SpellsIndex(s, v)
  {
    var u := Upper(s[8..12]);
    assert forall i :: 0 <= i < 4 ==> u[i] == UpperChar(s[8 + i]);
    FourValues(u);
    forall i | 8 <= i < 12 ensures Digit(u[i - 8]).None? <==> LookAlike(s[i]) { DigitRefuses(s[i]); }
    if forall i :: 0 <= i < 4 ==> Digit(u[i]).Some? {
      AllReadable(s, u);
      IndexValue(s, u, v);
    } else {
      var i :| 0 <= i < 4 && Digit(u[i]).None?;
      assert LookAlike(s[8 + i]);
      IndexNone(s, v, i);
    }
  }

  lemma AllReadable(s: string, u: string)
    requires |s| == 12 && |u| == 4 && forall i :: 0 <= i < 4 ==> Digit(u[i]).Some?
    requires forall i :: 8 <= i < 12 ==> (Digit(u[i - 8]).None? <==> LookAlike(s[i]))
    ensures forall i :: 8 <= i < 12 ==> !LookAlike(s[i])
  {
  }

  lemma IndexValue(s: string, u: string, v: nat)
    requires |s| == 12 && |u| == 4 && forall i :: 0 <= i < 4 ==> u[i] == UpperChar(s[8 + i]) && Digit(u[i]).Some?
    ensures v == Digit(u[0]).value * 0x8000 + Digit(u[1]).value * 0x400 + Digit(u[2]).value * 0x20 + Digit(u[3]).value <==> SpellsIndex(s, v)
  {
    forall i | 0 <= i < 4 ensures Digit(u[i]).value < 32 { DigitLetter(0, u[i]); }
    FourDigitsAre(Digit(u[0]).value, Digit(u[1]).value, Digit(u[2]).value, Digit(u[3]).value, v);
    forall i | 0 <= i < 4 ensures Spells(s[8 + i], Quintet(v, i)) <==> Digit(u[i]).value == Quintet(v, i) {
      DigitSpells(s[8 + i], Quintet(v, i));
    }
    FourQuintets(v);
  }

  lemma FourQuintets(v: nat)
    ensures Quintet(v, 1) == v / 0x400 % 32 && Quintet(v, 2) == v / 0x20 % 32 && Quintet(v, 3) == v % 32
    ensures v < 0x10_0000 ==> Quintet(v, 0) == v / 0x8000
  {
  }

  lemma IndexNone(s: string, v: nat, i: nat)
    requires |s| == 12 && i < 4 && Digit(UpperChar(s[8 + i])).None?
    ensures !SpellsIndex(s, v)
  {
    DigitSpells(s[8 + i], Quintet(v, i));
  }

  lemma ToIntLast(u: string, k: nat)
    requires 1 <= k <= |u| && forall i :: 0 <= i < |u| ==> IsDigit(u[i])
    ensures ToInt(u[..k]) == ToInt(u[..k - 1]) * 10 + DigitVal(u[k - 1])
  {
    assert u[..k][..k - 1] == u[..k - 1];
  }

  lemma NumbersRead(s: string)
    requires SerialShape(s)
    ensures YearOf(s) == ToInt(s[..4]) && WeekOf(s) == ToInt(s[5..7])
  {
    ToIntLast(s[..4], 4);
    ToIntLast(s[..4], 3);
    ToIntLast(s[..4], 2);
    ToIntLast(s[..4], 1);
    assert s[..4][..4] == s[..4] && s[..4][..0] == [];
    ToIntLast(s[5..7], 2);
    ToIntLast(s[5..7], 1);
    assert s[5..7][..2] == s[5..7] && s[5..7][..0] == [];
  }

  ghost predicate YearFits(s: string)
    requires Shaped(s)
  {
    assert SerialShape(s) by { ShapeExact(s); }
    2024 <= ToInt(s[..4]) <= 2087
  }

  ghost predicate WeekFits(s: string)
    requires Shaped(s)
  {
    assert SerialShape(s) by { ShapeExact(s); }
    1 <= ToInt(s[5..7]) <= 53
  }

  /** Every text is read or refused as its characters say: not of the shape, a look-alike
      in the index, a year outside 2024 .. 2087, a week outside 1 .. 53, in that order. */
  lemma ParseExact(s: string, p: Parsed)
    ensures ParseSerial(s) == Err(NotASerial) <==> !Shaped(s)
    ensures ParseSerial(s) == Err(BadIndex) <==> Shaped(s) && !Readable(s)
    ensures ParseSerial(s) == Err(BadYear) <==> Readable(s) && !YearFits(s)
    ensures ParseSerial(s) == Err(BadWeek) <==> Readable(s) && YearFits(s) && !WeekFits(s)
    ensures ParseSerial(s) == Ok(p)
            <==> Readable(s) && YearFits(s) && WeekFits(s)
                 && SaysYearWeek(s, p.year, p.week) && SpellsIndex(s, p.index)
  {
    ShapeExact(s);
    if SerialShape(s) {
      NumbersRead(s);
      IndexExact(s, p.index);
      ReadableExact(s);
    }
  }

  ghost predicate SaysYearWeek(s: string, year: nat, week: nat)
    requires Shaped(s)
  {
    assert SerialShape(s) by { ShapeExact(s); }
    year == ToInt(s[..4]) && week == ToInt(s[5..7])
  }

  lemma ReadableExact(s: string)
    requires SerialShape(s)
    ensures Shaped(s) && (Readable(s) <==> Value(Upper(s[8..12])).Some?)
  {
    ShapeExact(s);
    IndexExact(s, 0);
  }

  // ----------------------------------------------------------------- the address

  /** The 48 bits of an address: octet, prefix, year, week, index, interface, two zeros. */
  ghost function Bits(p: Parsed, iface: nat): (v: nat)
    requires InRange(p)
  {
    0xA2C0_0000_0000 + (p.year - 2024) * 0x4000_0000 + p.week * 0x100_0000 + p.index * 0x10 + iface * 4
  }

  ghost function HexAt(v: nat, place: nat): char
    requires place > 0
  {
    "0123456789ABCDEF"[v / place % 16]
  }

  /** The two digits of the octet whose lowest bit counts `place`. */
  ghost function Pair(v: nat, place: nat): string
    requires place > 0
  {
    [HexAt(v, 16 * place), HexAt(v, place)]
  }

  /** Twelve upper-case hexadecimal digits, most significant first, in pairs with colons
      between. */
  ghost function Printed(v: nat): string {
    Pair(v, 0x100_0000_0000) + ":" + Pair(v, 0x1_0000_0000) + ":" + Pair(v, 0x100_0000) + ":"
    + Pair(v, 0x1_0000) + ":" + Pair(v, 0x100) + ":" + Pair(v, 1)
  }

  lemma HexChars(o: nat)
    requires o < 256
    ensures Hex(o) == ["0123456789ABCDEF"[o / 16], "0123456789ABCDEF"[o % 16]]
  {
  }

  lemma {:induction false} FiveOctets(v: nat)
    ensures Octets(v, 5) == [v / 0x1_0000_0000 % 256, v / 0x100_0000 % 256, v / 0x1_0000 % 256, v / 0x100 % 256, v % 256]
  {
    assert Octets(v, 5) == Octets(v / 256, 4) + [v % 256];
    assert Octets(v / 256, 4) == Octets(v / 0x1_0000, 3) + [v / 256 % 256] by { assert v / 256 / 256 == v / 0x1_0000; }
    assert Octets(v / 0x1_0000, 3) == Octets(v / 0x100_0000, 2) + [v / 0x1_0000 % 256] by { assert v / 0x1_0000 / 256 == v / 0x100_0000; }
    TwoOctets(v / 0x100_0000);
    assert v / 0x100_0000 / 256 == v / 0x1_0000_0000;
  }

  lemma TwoOctets(v: nat)
    ensures Octets(v, 2) == [v / 256 % 256, v % 256]
  {
    assert Octets(v / 256, 1) == Octets(v / 256 / 256, 0) + [v / 256 % 256];
  }

  lemma Nibbles(w: nat, place: nat)
    requires place > 0
    ensures w / place % 256 / 16 == w / (16 * place) % 16 && w / place % 256 % 16 == w / place % 16
  {
    var q := w / place;
    DivTwice(w, place);
    OctetHalves(q);
  }

  lemma OctetHalves(q: nat)
    ensures q % 256 / 16 == q / 16 % 16 && q % 256 % 16 == q % 16
  {
  }

  lemma DivTwice(v: nat, place: nat)
    requires place > 0
    ensures v / place / 16 == v / (16 * place)
  {
    var q, r := v / place, v % place;
    var x, y := q / 16, q % 16;
    assert v == place * q + r && q == 16 * x + y;
    assert v == (16 * place) * x + (place * y + r) by { MulOut(place, x, y); }
    assert place * y <= place * 15 by { MulLe(place, y, 15); }
    DivIs(v, 16 * place, x, place * y + r);
  }

  lemma MulOut(a: nat, x: nat, y: nat)
    ensures a * (16 * x + y) == (16 * a) * x + a * y
  {
  }

  lemma MulLe(a: nat, y: nat, z: nat)
    requires y <= z
    ensures a * y <= a * z
  {
  }

  lemma DivIs(v: nat, d: nat, q: nat, r: nat)
    requires d > 0 && r < d && v == d * q + r
    ensures v / d == q
  {
    if v / d < q { MulLe(d, v / d + 1, q); }
    if v / d > q { MulLe(d, q + 1, v / d); }
  }

  lemma HexPair(w: nat, place: nat)
    requires place > 0
    ensures Hex(w / place % 256) == Pair(w, place)
  {
    HexChars(w / place % 256);
    Nibbles(w, place);
  }

  lemma {:induction false} SixColons(os: seq<nat>)
    requires |os| == 6 && forall i :: 0 <= i < 6 ==> os[i] < 256
    ensures Colons(os) == Hex(os[0]) + ":" + Hex(os[1]) + ":" + Hex(os[2]) + ":" + Hex(os[3]) + ":" + Hex(os[4]) + ":" + Hex(os[5])
  {
    var c1, c2, c3, c4, c5 := os[1..], os[2..], os[3..], os[4..], os[5..];
    assert c1[1..] == c2 && c2[1..] == c3 && c3[1..] == c4 && c4[1..] == c5;
    assert Colons(c5) == Hex(os[5]);
    assert Colons(c4) == Hex(os[4]) + ":" + Colons(c5);
    assert Colons(c3) == Hex(os[3]) + ":" + Colons(c4);
    assert Colons(c2) == Hex(os[2]) + ":" + Colons(c3);
    assert Colons(c1) == Hex(os[1]) + ":" + Colons(c2);
  }

  lemma Shifted(v: nat, place: nat, above: nat)
    requires place > 0
    ensures (256 * above * place + v) / place % 256 == v / place % 256
  {
    var q, r := v / place, v % place;
    Distribute(256 * above, q, place);
    DivIs(256 * above * place + v, place, 256 * above + q, r);
  }

  lemma Distribute(a: nat, q: nat, place: nat)
    ensures place * (a + q) == a * place + place * q
  {
  }

  lemma OctetPlaces(v: nat, w: nat)
    requires v < 0x100_0000_0000 && w == 0xA200_0000_0000 + v
    ensures w / 0x100_0000_0000 % 256 == Octet0 && Octets(v, 5)
            == [w / 0x1_0000_0000 % 256, w / 0x100_0000 % 256, w / 0x1_0000 % 256, w / 0x100 % 256, w / 1 % 256]
  {
    FiveOctets(v);
    Shifted(v, 0x1_0000_0000, 0xA2);
    Shifted(v, 0x100_0000, 0xA2_00);
    Shifted(v, 0x1_0000, 0xA2_0000);
    Shifted(v, 0x100, 0xA200_0000);
    Shifted(v, 1, 0xA2_0000_0000);
    assert w / 0x100_0000_0000 == 0xA2;
  }

  lemma MacPrinted(v: nat)
    requires v < 0x100_0000_0000
    ensures MacText(v) == Printed(0xA200_0000_0000 + v)
  {
    var w := 0xA200_0000_0000 + v;
    OctetPlaces(v, w);
    var os := [Octet0] + Octets(v, 5);
    SixColons(os);
    PrintedHex(w, os);
  }

  lemma PrintedHex(w: nat, os: seq<nat>)
    requires |os| == 6 && os[0] == w / 0x100_0000_0000 % 256 && os[1] == w / 0x1_0000_0000 % 256 && os[2] == w / 0x100_0000 % 256
    requires os[3] == w / 0x1_0000 % 256 && os[4] == w / 0x100 % 256 && os[5] == w / 1 % 256
    ensures Printed(w) == Hex(os[0]) + ":" + Hex(os[1]) + ":" + Hex(os[2]) + ":" + Hex(os[3]) + ":" + Hex(os[4]) + ":" + Hex(os[5])
  {
    HexPair(w, 0x100_0000_0000);
    HexPair(w, 0x1_0000_0000);
    HexPair(w, 0x100_0000);
    HexPair(w, 0x1_0000);
    HexPair(w, 0x100);
    HexPair(w, 1);
  }

  /** Exactly which address, or which refusal, a serial and an interface give. */
  lemma AddressExact(s: string, iface: nat, t: string)
    ensures Mac(s, iface) == Ok(t)
            <==> ParseSerial(s).Ok? && iface <= 3 && t == Printed(Bits(ParseSerial(s).value, iface))
    ensures forall why :: Mac(s, iface) == Err(why)
                          <==> ParseSerial(s) == Err(why) || (ParseSerial(s).Ok? && iface > 3 && why == BadIface)
  {
    if ParseSerial(s).Ok? && iface <= 3 {
      var p := ParseSerial(s).value;
      PayloadBits(p, iface);
      MacPrinted(Payload(p, iface));
    }
  }

  lemma PayloadBits(p: Parsed, iface: nat)
    requires InRange(p) && iface <= 3
    ensures Payload(p, iface) < 0x100_0000_0000 && 0xA200_0000_0000 + Payload(p, iface) == Bits(p, iface)
  {
    PayloadRoundTrip(p, iface);
  }
}
