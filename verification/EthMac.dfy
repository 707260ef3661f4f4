/** Serial numbers to Ethernet addresses: the Crockford index, the serial grammar, the
    packed fields and the printed address. */
module EthMac {
  import opened PyText

  const Alphabet := "0123456789ABCDEFGHJKMNPQRSTVWXYZ"
  const YearBase := 2024
  const WeekMin := 1
  const WeekMax := 53
  const Prefix := 0xC
  const Octet0 := 0xA2

  // ------------------------------------------------------------ Crockford base 32

  /** `s.find(c)` for one character. */
  function Find(s: string, c: char): (i: Option<nat>)
    ensures i.Some? ==> i.value < |s| && s[i.value] == c && forall j :: 0 <= j < i.value ==> s[j] != c
    ensures i.None? ==> c !in s
  {
    if s == [] then None
    else if s[0] == c then Some(0)
    else var r := Find(s[1..], c); if r.Some? then Some(r.value + 1) else assert s == [s[0]] + s[1..]; None
  }

  /** The alphabet as ranges: no I, L, O or U. */
  function Letter(i: nat): char
    requires i < 32
  {
    if i < 10 then '0' + i as char
    else if i < 18 then 'A' + (i - 10) as char
    else if i < 20 then 'J' + (i - 18) as char
    else if i < 22 then 'M' + (i - 20) as char
    else if i < 27 then 'P' + (i - 22) as char
    else 'V' + (i - 27) as char
  }

  function Digit(c: char): Option<nat> {
    if '0' <= c <= '9' then Some(c as int - '0' as int)
    else if 'A' <= c <= 'H' then Some(c as int - 'A' as int + 10)
    else if 'J' <= c <= 'K' then Some(c as int - 'J' as int + 18)
    else if 'M' <= c <= 'N' then Some(c as int - 'M' as int + 20)
    else if 'P' <= c <= 'T' then Some(c as int - 'P' as int + 22)
    else if 'V' <= c <= 'Z' then Some(c as int - 'V' as int + 27)
    else None
  }

  lemma DigitLetter(i: nat, c: char)
    ensures i < 32 ==> Digit(Letter(i)) == Some(i)
    ensures Digit(c).Some? ==> Digit(c).value < 32 && Letter(Digit(c).value) == c
  {
  }

  lemma AlphabetReads(i: nat)
    requires i < 32
    ensures |Alphabet| == 32 && Alphabet[i] == Letter(i)
  {
  }

  /** Looking a character up in the alphabet is reading its digit. */
  lemma FindIsDigit(c: char)
    ensures Find(Alphabet, c) == Digit(c)
  {
    var f := Find(Alphabet, c);
    if Digit(c).Some? { InAlphabet(c); }
    if f.Some? {
      AlphabetReads(f.value);
      DigitLetter(f.value, c);
    }
  }

  lemma InAlphabet(c: char)
    requires Digit(c).Some?
    ensures c in Alphabet
  {
    DigitLetter(0, c);
    AlphabetReads(Digit(c).value);
    assert Alphabet[Digit(c).value] == c;
  }

  function UpperChar(c: char): (u: char) { if 'a' <= c <= 'z' then (c as int - 32) as char else c }

  function Upper(s: string): (u: string)
    ensures |u| == |s| && forall i :: 0 <= i < |s| ==> u[i] == UpperChar(s[i])
  {
    if s == [] then [] else [UpperChar(s[0])] + Upper(s[1..])
  }

  /** The base-32 value of a run of digits. */
  function Value(s: string): Option<nat> {
    if s == [] then Some(0)
    else
      var n := |s| - 1;
      var v, d := Value(s[..n]), Digit(s[n]);
      if v.None? || d.None? then None else Some(v.value * 32 + d.value)
  }

  method CrockfordDecode(chars: string) returns (r: Option<nat>)
    ensures r == if |chars| == 4 then Value(Upper(chars)) else None
  {
    if |chars| != 4 { return None; }
    forall c ensures Find(Alphabet, c) == Digit(c) { FindIsDigit(c); }
    r := DecodeDigits(Upper(chars), Alphabet);
  }

  method DecodeDigits(u: string, alphabet: string) returns (r: Option<nat>)
    requires forall c :: Find(alphabet, c) == Digit(c)
    ensures r == Value(u)
  {
    var value := 0;
    for i := 0 to |u|
      invariant Value(u[..i]) == Some(value)
    {
      DecodeStep(u, i);
      var pos := Find(alphabet, u[i]);
      if pos.None? { return None; }
      value := value * 32 + pos.value;
    }
    assert u[..|u|] == u;
    r := Some(value);
  }

  lemma DecodeStep(u: string, i: nat)
    requires i < |u|
    ensures var d := Digit(u[i]);
            && (d.None? ==> Value(u).None?)
            && (d.Some? && Value(u[..i]).Some? ==> Value(u[..i + 1]) == Some(Value(u[..i]).value * 32 + d.value))
  {
    assert u[..i + 1][..i] == u[..i];
    if Digit(u[i]).None? { ValueNone(u, i); }
  }

  lemma {:induction false} ValueNone(s: string, i: nat)
    requires i < |s| && Digit(s[i]).None?
    ensures Value(s).None?
    decreases |s|
  {
    if i < |s| - 1 { ValueNone(s[..|s| - 1], i); }
  }

  function Pow32(k: nat): nat { if k == 0 then 1 else 32 * Pow32(k - 1) }

  /** The `k`-character string of a value. */
  function Encode(v: nat, k: nat): (s: string)
    ensures |s| == k
  {
    if k == 0 then [] else Encode(v / 32, k - 1) + [Letter(v % 32)]
  }

  lemma {:induction false} EncodeValue(v: nat, k: nat)
    requires v < Pow32(k)
    ensures Value(Encode(v, k)) == Some(v)
  {
    if k > 0 {
      EncodeValue(v / 32, k - 1);
      DigitLetter(v % 32, ' ');
      var s := Encode(v, k);
      assert s[..k - 1] == Encode(v / 32, k - 1);
    }
  }

  lemma {:induction false} ValueEncode(s: string)
    requires Value(s).Some?
    ensures Value(s).value < Pow32(|s|) && Encode(Value(s).value, |s|) == s
    decreases |s|
  {
    if s != [] {
      var n := |s| - 1;
      ValueEncode(s[..n]);
      DigitLetter(0, s[n]);
      var v, d := Value(s[..n]).value, Digit(s[n]).value;
      assert (v * 32 + d) / 32 == v && (v * 32 + d) % 32 == d;
      assert s == s[..n] + [s[n]];
    }
  }

  /** Decoding is a bijection from the upper-case four-character index strings onto
      0 .. 2^20 - 1. */
  lemma CrockfordBijection(s: string, t: string, v: nat)
    requires |s| == 4 && |t| == 4
    ensures Value(s).Some? ==> Value(s).value < 0x10_0000
    ensures Value(s).Some? && Value(s) == Value(t) ==> s == t
    ensures v < 0x10_0000 ==> Value(Encode(v, 4)) == Some(v)
  {
    assert Pow32(4) == 0x10_0000 by { assert Pow32(1) == 32; assert Pow32(2) == 1024; assert Pow32(3) == 32768; }
    if Value(s).Some? { ValueEncode(s); }
    if Value(t).Some? { ValueEncode(t); }
    if v < 0x10_0000 { EncodeValue(v, 4); }
  }

  // ------------------------------------------------------------------- the serial

  predicate Alnum(c: char) { IsDigit(c) || 'a' <= c <= 'z' || 'A' <= c <= 'Z' }

  /** The serial pattern, matched in full and without regard to case. */
  predicate SerialShape(s: string) {
    && |s| == 12
    && (forall i :: 0 <= i < 4 ==> IsDigit(s[i]))
    && UpperChar(s[4]) == 'W'
    && IsDigit(s[5]) && IsDigit(s[6])
    && s[7] == '-'
    && forall i :: 8 <= i < 12 ==> Alnum(s[i])
  }

  datatype Parsed = Parsed(year: nat, week: nat, index: nat)

  datatype Refusal = NotASerial | BadIndex | BadYear | BadWeek | BadIface

  datatype Result<T> = Ok(value: T) | Err(why: Refusal)

  function DigitVal(c: char): nat
    requires IsDigit(c)
  {
    c as int - '0' as int
  }

  function YearOf(s: string): nat
    requires SerialShape(s)
  {
    ((DigitVal(s[0]) * 10 + DigitVal(s[1])) * 10 + DigitVal(s[2])) * 10 + DigitVal(s[3])
  }

  function WeekOf(s: string): nat
    requires SerialShape(s)
  {
    DigitVal(s[5]) * 10 + DigitVal(s[6])
  }

  function ParseSerial(s: string): (r: Result<Parsed>)
    ensures r.Ok? ==> InRange(r.value)
  {
    if !SerialShape(s) then Err(NotASerial)
    else
      var index := Value(Upper(s[8..12]));
      if index.None? then Err(BadIndex)
      else if !(YearBase <= YearOf(s) <= YearBase + 63) then Err(BadYear)
      else if !(WeekMin <= WeekOf(s) <= WeekMax) then Err(BadWeek)
      else
        CrockfordBijection(Upper(s[8..12]), Upper(s[8..12]), 0);
        Ok(Parsed(YearOf(s), WeekOf(s), index.value))
  }

  predicate InRange(p: Parsed) {
    YearBase <= p.year <= YearBase + 63 && WeekMin <= p.week <= WeekMax && p.index < 0x10_0000
  }

  /** Two accepted serials read the same exactly when they differ in letter case only. */
  lemma ParseInjective(s: string, t: string)
    requires ParseSerial(s).Ok? && ParseSerial(t).Ok?
    ensures ParseSerial(s).value == ParseSerial(t).value <==> Upper(s) == Upper(t)
  {
    UpperSplits(s, t);
    CrockfordBijection(Upper(s[8..12]), Upper(t[8..12]), 0);
    if ParseSerial(s).value == ParseSerial(t).value {
      SameYear(s, t);
    }
    if Upper(s) == Upper(t) {
      assert YearOf(s) == YearOf(t) && WeekOf(s) == WeekOf(t);
    }
  }

  lemma UpperSplits(s: string, t: string)
    requires SerialShape(s) && SerialShape(t)
    ensures Upper(s) == Upper(t) <==>
            s[0] == t[0] && s[1] == t[1] && s[2] == t[2] && s[3] == t[3] && s[5] == t[5] && s[6] == t[6] && Upper(s[8..12]) == Upper(t[8..12])
  {
    UpperTail(s);
    UpperTail(t);
    UpperHead(s);
    UpperHead(t);
    TwelveSame(Upper(s), Upper(t));
  }

  lemma UpperTail(s: string)
    requires |s| == 12
    ensures Upper(s[8..12]) == Upper(s)[8..]
  {
    var u, e := Upper(s), Upper(s[8..12]);
    assert forall i :: 0 <= i < 4 ==> e[i] == UpperChar(s[8 + i]) == u[8..][i];
  }

  lemma UpperHead(s: string)
    requires SerialShape(s)
    ensures var u := Upper(s); u[0] == s[0] && u[1] == s[1] && u[2] == s[2] && u[3] == s[3] && u[4] == 'W' && u[5] == s[5] && u[6] == s[6] && u[7] == '-'
  {
  }

  lemma TwelveSame(u: string, v: string)
    requires |u| == |v| == 12 && u[4] == v[4] && u[7] == v[7]
    ensures u == v <==> u[0] == v[0] && u[1] == v[1] && u[2] == v[2] && u[3] == v[3] && u[5] == v[5] && u[6] == v[6] && u[8..] == v[8..]
  {
    assert u == u[..8] + u[8..] && v == v[..8] + v[8..];
    if u[0] == v[0] && u[1] == v[1] && u[2] == v[2] && u[3] == v[3] && u[5] == v[5] && u[6] == v[6] {
      assert u[..8] == v[..8];
    }
  }

  lemma SameYear(s: string, t: string)
    requires SerialShape(s) && SerialShape(t) && YearOf(s) == YearOf(t) && WeekOf(s) == WeekOf(t)
    ensures s[0] == t[0] && s[1] == t[1] && s[2] == t[2] && s[3] == t[3] && s[5] == t[5] && s[6] == t[6]
  {
    DigitsSame(DigitVal(s[0]) * 100 + DigitVal(s[1]) * 10 + DigitVal(s[2]), s[3], DigitVal(t[0]) * 100 + DigitVal(t[1]) * 10 + DigitVal(t[2]), t[3]);
    DigitsSame(DigitVal(s[0]) * 10 + DigitVal(s[1]), s[2], DigitVal(t[0]) * 10 + DigitVal(t[1]), t[2]);
    DigitsSame(DigitVal(s[0]), s[1], DigitVal(t[0]), t[1]);
    DigitsSame(DigitVal(s[5]), s[6], DigitVal(t[5]), t[6]);
  }

  lemma DigitsSame(a: nat, c: char, b: nat, d: char)
    requires IsDigit(c) && IsDigit(d) && a * 10 + DigitVal(c) == b * 10 + DigitVal(d)
    ensures a == b && c == d
  {
  }

  // ------------------------------------------------------------------ the payload

  /** Bitwise or of two naturals. */
  function Or(a: nat, b: nat): nat {
    if a == 0 && b == 0 then 0 else 2 * Or(a / 2, b / 2) + (if a % 2 == 1 || b % 2 == 1 then 1 else 0)
  }

  function Pow2(k: nat): nat { if k == 0 then 1 else 2 * Pow2(k - 1) }

  function Shl(a: nat, k: nat): nat { if k == 0 then a else 2 * Shl(a, k - 1) }

  lemma {:induction false} OrZero(a: nat)
    ensures Or(a, 0) == a
  {
    if a > 0 { OrZero(a / 2); }
  }

  /** A field that fits below the shift is added by the or. */
  lemma {:induction false} ShiftOr(a: nat, k: nat, b: nat)
    requires b < Pow2(k)
    ensures Or(Shl(a, k), b) == Shl(a, k) + b
  {
    if k == 0 {
      OrZero(a);
    } else {
      ShiftOr(a, k - 1, b / 2);
      if Shl(a, k) > 0 || b > 0 {
        assert Shl(a, k) / 2 == Shl(a, k - 1) && Shl(a, k) % 2 == 0;
      }
    }
  }

  /** The fields side by side, most significant first. */
  function Payload(p: Parsed, iface: nat): nat
    requires InRange(p)
  {
    ((((Prefix * 64 + (p.year - YearBase)) * 64 + p.week) * 0x10_0000 + p.index) * 4 + iface) * 4
  }

  lemma Pow2Values()
    ensures Pow2(2) == 4 && Pow2(6) == 64 && Pow2(20) == 0x10_0000
  {
    assert Pow2(2) == 4;
    assert Pow2(4) == 16;
    assert Pow2(6) == 64;
    assert Pow2(10) == 1024 by { assert Pow2(8) == 256; }
    assert Pow2(14) == 16384 by { assert Pow2(12) == 4096; }
    assert Pow2(18) == 262144 by { assert Pow2(16) == 65536; }
  }

  lemma {:induction false} ShlIs(a: nat, k: nat)
    ensures Shl(a, k) == a * Pow2(k)
  {
    if k > 0 { ShlIs(a, k - 1); }
  }

  method Payload40(p: Parsed, iface: nat) returns (r: Result<nat>)
    requires InRange(p)
    ensures r == if iface < 4 then Ok(Payload(p, iface)) else Err(BadIface)
  {
    if iface >= 4 { return Err(BadIface); }
    Pow2Values();
    var value: nat := Prefix;
    ShiftOr(value, 6, p.year - YearBase);
    ShlIs(value, 6);
    value := Or(Shl(value, 6), p.year - YearBase);
    ShiftOr(value, 6, p.week);
    ShlIs(value, 6);
    value := Or(Shl(value, 6), p.week);
    ShiftOr(value, 20, p.index);
    ShlIs(value, 20);
    value := Or(Shl(value, 20), p.index);
    ShiftOr(value, 2, iface);
    ShlIs(value, 2);
    value := Or(Shl(value, 2), iface);
    ShiftOr(value, 2, 0);
    ShlIs(value, 2);
    value := Or(Shl(value, 2), 0);
    r := Ok(value);
  }

  /** The fields read back out of a payload. */
  function Fields(v: nat): (Parsed, nat) {
    (Parsed(v / 0x4000_0000 % 64 + YearBase, v / 0x100_0000 % 64, v / 16 % 0x10_0000), v / 4 % 4)
  }

  /** The payload fits 40 bits, starts with the prefix nibble, and reads back. */
  lemma PayloadRoundTrip(p: Parsed, iface: nat)
    requires InRange(p) && iface < 4
    ensures Payload(p, iface) < 0x100_0000_0000
    ensures Payload(p, iface) / 0x10_0000_0000 == Prefix
    ensures Fields(Payload(p, iface)) == (p, iface)
  {
    var a := Prefix * 64 + (p.year - YearBase);
    var b := a * 64 + p.week;
    var c := b * 0x10_0000 + p.index;
    var d := c * 4 + iface;
    var v := Payload(p, iface);
    assert v == d * 4;
    assert v / 4 == d && d % 4 == iface;
    assert v / 16 == c by { assert v == 16 * c + 4 * iface; }
    assert c % 0x10_0000 == p.index;
    assert v / 0x100_0000 == b by { assert v == 0x100_0000 * b + (16 * p.index + 4 * iface); }
    assert b % 64 == p.week;
    assert v / 0x4000_0000 == a by { assert v == 0x4000_0000 * a + (0x100_0000 * p.week + 16 * p.index + 4 * iface); }
    assert a % 64 == p.year - YearBase;
  }

  predicate Before(p: Parsed, q: Parsed) {
    p.year < q.year || (p.year == q.year && (p.week < q.week || (p.week == q.week && p.index < q.index)))
  }

  /** On one interface, payloads are ordered as (year, week, index). */
  lemma PayloadOrder(p: Parsed, q: Parsed, iface: nat)
    requires InRange(p) && InRange(q) && iface < 4
    ensures Payload(p, iface) < Payload(q, iface) <==> Before(p, q)
  {
    var ap, aq := Prefix * 64 + (p.year - YearBase), Prefix * 64 + (q.year - YearBase);
    assert Payload(p, iface) == 0x4000_0000 * ap + 0x100_0000 * p.week + 16 * p.index + 4 * iface;
    assert Payload(q, iface) == 0x4000_0000 * aq + 0x100_0000 * q.week + 16 * q.index + 4 * iface;
  }

  // ------------------------------------------------------------------ the address

  function HexDigit(d: nat): char
    requires d < 16
  {
    if d < 10 then '0' + d as char else 'A' + (d - 10) as char
  }

  function HexVal(c: char): nat {
    if '0' <= c <= '9' then c as int - '0' as int else if 'A' <= c <= 'F' then c as int - 'A' as int + 10 else 0
  }

  function Hex(o: nat): string
    requires o < 256
  {
    [HexDigit(o / 16), HexDigit(o % 16)]
  }

  /** Octets joined by colons. */
  function Colons(octets: seq<nat>): (t: string)
    requires forall i :: 0 <= i < |octets| ==> octets[i] < 256
    ensures |t| == if octets == [] then 0 else 3 * |octets| - 1
  {
    if octets == [] then [] else if |octets| == 1 then Hex(octets[0]) else Hex(octets[0]) + [':'] + Colons(octets[1..])
  }

  /** The low `n` octets of a value, most significant first. */
  function Octets(v: nat, n: nat): (r: seq<nat>)
    ensures |r| == n && forall i :: 0 <= i < n ==> r[i] < 256
  {
    if n == 0 then [] else Octets(v / 256, n - 1) + [v % 256]
  }

  function FromOctets(os: seq<nat>): nat {
    if os == [] then 0 else FromOctets(os[..|os| - 1]) * 256 + os[|os| - 1]
  }

  function Pow256(n: nat): nat { if n == 0 then 1 else 256 * Pow256(n - 1) }

  lemma {:induction false} OctetsRead(v: nat, n: nat)
    requires v < Pow256(n)
    ensures FromOctets(Octets(v, n)) == v
  {
    if n > 0 {
      OctetsRead(v / 256, n - 1);
      assert Octets(v, n)[..n - 1] == Octets(v / 256, n - 1);
    }
  }

  /** The octets of a printed address. */
  function ReadColons(t: string): seq<nat>
    decreases |t|
  {
    if |t| < 2 then [] else [HexVal(t[0]) * 16 + HexVal(t[1])] + ReadColons(if |t| < 3 then [] else t[3..])
  }

  lemma HexReads(o: nat)
    requires o < 256
    ensures HexVal(Hex(o)[0]) * 16 + HexVal(Hex(o)[1]) == o
  {
  }

  lemma {:induction false} ColonsRead(os: seq<nat>)
    requires forall i :: 0 <= i < |os| ==> os[i] < 256
    ensures ReadColons(Colons(os)) == os
  {
    if os != [] {
      HexReads(os[0]);
      if |os| == 1 {
        ReadLast(Hex(os[0]));
      } else {
        ReadFirst(Hex(os[0]), Colons(os[1..]));
        ColonsRead(os[1..]);
      }
      assert os == [os[0]] + os[1..];
    }
  }

  lemma ReadLast(h: string)
    requires |h| == 2
    ensures ReadColons(h) == [HexVal(h[0]) * 16 + HexVal(h[1])]
  {
    assert ReadColons([]) == [];
  }

  lemma ReadFirst(h: string, t: string)
    requires |h| == 2
    ensures ReadColons(h + [':'] + t) == [HexVal(h[0]) * 16 + HexVal(h[1])] + ReadColons(t)
  {
    var s := h + [':'] + t;
    assert s[0] == h[0] && s[1] == h[1] && s[3..] == t;
  }

  /** The address as printed. */
  function MacText(payload: nat): string { Colons([Octet0] + Octets(payload, 5)) }

  function Mac(s: string, iface: nat): Result<string> {
    var p := ParseSerial(s);
    if p.Err? then Err(p.why)
    else if iface >= 4 then Err(BadIface)
    else Ok(MacText(Payload(p.value, iface)))
  }

  method DeriveMac(s: string, iface: nat) returns (r: Result<string>)
    ensures r == Mac(s, iface)
  {
    var parsed := ParseSerial(s);
    if parsed.Err? { return Err(parsed.why); }
    var payload := Payload40(parsed.value, iface);
    if payload.Err? { return Err(payload.why); }
    var octets: seq<nat> := [Octet0];
    var i := 5;
    while i > 0
      invariant 0 <= i <= 5 && |octets| == 6 - i
      invariant octets == [Octet0] + Octets(payload.value, 5)[..5 - i]
    {
      i := i - 1;
      OctetAt(payload.value, 5, i);
      octets := octets + [Shr(payload.value, 8 * i) % 256];
    }
    assert Octets(payload.value, 5)[..5] == Octets(payload.value, 5);
    r := Ok(Colons(octets));
  }

  function Shr(v: nat, k: nat): nat { if k == 0 then v else Shr(v / 2, k - 1) }

  lemma ShrOctet(v: nat, k: nat)
    requires k >= 8
    ensures Shr(v, k) == Shr(v / 256, k - 8)
  {
    assert Shr(v, k) == Shr(v / 2, k - 1) == Shr(v / 2 / 2, k - 2);
    assert v / 2 / 2 == v / 4;
    assert Shr(v / 4, k - 2) == Shr(v / 4 / 2, k - 3) == Shr(v / 4 / 2 / 2, k - 4);
    assert v / 4 / 2 / 2 == v / 16;
    assert Shr(v / 16, k - 4) == Shr(v / 16 / 2, k - 5) == Shr(v / 16 / 2 / 2, k - 6);
    assert v / 16 / 2 / 2 == v / 64;
    assert Shr(v / 64, k - 6) == Shr(v / 64 / 2, k - 7) == Shr(v / 64 / 2 / 2, k - 8);
    assert v / 64 / 2 / 2 == v / 256;
  }

  lemma {:induction false} OctetAt(v: nat, n: nat, i: nat)
    requires i < n
    ensures Octets(v, n)[n - 1 - i] == Shr(v, 8 * i) % 256
  {
    if i > 0 {
      OctetAt(v / 256, n - 1, i - 1);
      ShrOctet(v, 8 * i);
    }
  }

  /** Reads year, week, index and interface back from a printed address. */
  function Decode(mac: string): (Parsed, nat) {
    var os := ReadColons(mac);
    Fields(FromOctets(if os == [] then [] else os[1..]))
  }

  lemma Pow256Five()
    ensures Pow256(5) == 0x100_0000_0000
  {
    assert Pow256(1) == 256;
    assert Pow256(2) == 0x1_0000;
    assert Pow256(3) == 0x100_0000;
    assert Pow256(4) == 0x1_0000_0000;
  }

  /** The printed address of an accepted serial decodes to what the serial says. */
  lemma MacRoundTrip(s: string, iface: nat)
    requires ParseSerial(s).Ok? && iface < 4
    ensures Mac(s, iface).Ok? && Decode(Mac(s, iface).value) == (ParseSerial(s).value, iface)
    ensures ReadColons(Mac(s, iface).value)[..1] == [Octet0]
  {
    var p := ParseSerial(s).value;
    var v := Payload(p, iface);
    PayloadRoundTrip(p, iface);
    Pow256Five();
    OctetsRead(v, 5);
    var os := [Octet0] + Octets(v, 5);
    ColonsRead(os);
    assert os[1..] == Octets(v, 5);
  }

  /** One address, one unit and interface: exactly up to letter case. */
  lemma MacInjective(s: string, f: nat, t: string, g: nat)
    requires Mac(s, f).Ok? && Mac(t, g).Ok?
    ensures Mac(s, f) == Mac(t, g) <==> Upper(s) == Upper(t) && f == g
  {
    MacRoundTrip(s, f);
    MacRoundTrip(t, g);
    ParseInjective(s, t);
  }

  /** The serial of a unit. */
  function Print(p: Parsed): string
    requires InRange(p)
  {
    [Dec(p.year / 1000), Dec(p.year / 100 % 10), Dec(p.year / 10 % 10), Dec(p.year % 10), 'W', Dec(p.week / 10), Dec(p.week % 10), '-']
    + Encode(p.index, 4)
  }

  function Dec(d: nat): char
    requires d < 10
  {
    '0' + d as char
  }

  lemma {:induction false} EncodeLetters(v: nat, k: nat)
    ensures forall i :: 0 <= i < k ==> Alnum(Encode(v, k)[i]) && UpperChar(Encode(v, k)[i]) == Encode(v, k)[i]
  {
    if k > 0 { EncodeLetters(v / 32, k - 1); }
  }

  /** Every in-range unit has an accepted serial that says exactly that unit. */
  lemma SerialPrints(p: Parsed)
    requires InRange(p)
    ensures ParseSerial(Print(p)) == Ok(p)
  {
    var s, e := Print(p), Encode(p.index, 4);
    PrintShape(p);
    assert s[8..12] == e;
    EncodeLetters(p.index, 4);
    assert Upper(e) == e;
    EncodeValue4(p.index);
    PrintNumbers(p);
  }

  lemma PrintShape(p: Parsed)
    requires InRange(p)
    ensures SerialShape(Print(p))
  {
    var s, e := Print(p), Encode(p.index, 4);
    EncodeLetters(p.index, 4);
    forall i | 8 <= i < 12 ensures Alnum(s[i]) { assert s[i] == e[i - 8]; }
  }

  lemma FourDigits(y: nat)
    ensures ((y / 1000 * 10 + y / 100 % 10) * 10 + y / 10 % 10) * 10 + y % 10 == y
  {
    assert y / 100 == y / 1000 * 10 + y / 100 % 10;
    assert y / 10 == y / 100 * 10 + y / 10 % 10;
  }

  lemma PrintNumbers(p: Parsed)
    requires InRange(p) && SerialShape(Print(p))
    ensures YearOf(Print(p)) == p.year && WeekOf(Print(p)) == p.week
  {
    var s := Print(p);
    FourDigits(p.year);
    assert DigitVal(s[0]) == p.year / 1000 && DigitVal(s[1]) == p.year / 100 % 10;
    assert DigitVal(s[2]) == p.year / 10 % 10 && DigitVal(s[3]) == p.year % 10;
    assert DigitVal(s[5]) == p.week / 10 && DigitVal(s[6]) == p.week % 10;
  }

  lemma EncodeValue4(v: nat)
    requires v < 0x10_0000
    ensures Value(Encode(v, 4)) == Some(v)
  {
    CrockfordBijection("0000", "0000", v);
  }
}
