/** Text primitives the scripts lean on: whitespace, stripping, splitting and
    joining on one character, decimal numerals, and the code-point order that
    `sorted` uses on strings. */
module PyText {

  datatype Option<+T> = None | Some(value: T)

  /** `str.isspace` for one character; the regex class `\s` is the same set. */
  predicate IsSpace(c: char) {
    var n := c as int;
    || 9 <= n <= 13 || 28 <= n <= 32 || n == 0x85 || n == 0xA0 || n == 0x1680
    || 0x2000 <= n <= 0x200A || n == 0x2028 || n == 0x2029 || n == 0x202F || n == 0x205F || n == 0x3000
  }

  /** The twenty-nine code points, one by one. */
  lemma SpaceExact(c: char)
    ensures IsSpace(c) <==> c as int in {
      9, 10, 11, 12, 13, 28, 29, 30, 31, 32, 0x85, 0xA0, 0x1680, 0x2000, 0x2001, 0x2002, 0x2003, 0x2004, 0x2005, 0x2006,
      0x2007, 0x2008, 0x2009, 0x200A, 0x2028, 0x2029, 0x202F, 0x205F, 0x3000}
  {
  }

  predicate IsDigit(c: char) { '0' <= c <= '9' }

  /** The regex class `\w`, for ASCII text. */
  predicate IsWord(c: char) { IsDigit(c) || 'a' <= c <= 'z' || 'A' <= c <= 'Z' || c == '_' }

  function RStrip(s: string): string {
    if s != [] && IsSpace(s[|s| - 1]) then RStrip(s[..|s| - 1]) else s
  }

  function LStrip(s: string): string {
    if s != [] && IsSpace(s[0]) then LStrip(s[1..]) else s
  }

  function Strip(s: string): string { LStrip(RStrip(s)) }

  predicate AllSpace(s: string) { forall i :: 0 <= i < |s| ==> IsSpace(s[i]) }

  predicate EndsWith(s: string, t: string) { |t| <= |s| && s[|s| - |t|..] == t }

  function Count(s: string, c: char): nat {
    if s == [] then 0 else (if s[0] == c then 1 else 0) + Count(s[1..], c)
  }

  lemma {:induction false} CountAppend(a: string, b: string, c: char)
    ensures Count(a + b, c) == Count(a, c) + Count(b, c)
  {
    if a == [] {
      assert a + b == b;
    } else {
      assert (a + b)[1..] == a[1..] + b;
      CountAppend(a[1..], b, c);
    }
  }

  lemma {:induction false} CountZero(s: string, c: char)
    ensures Count(s, c) == 0 <==> c !in s
  {
    if s != [] {
      assert s == [s[0]] + s[1..];
      CountZero(s[1..], c);
    }
  }

  lemma Assoc<T>(a: seq<T>, b: seq<T>, c: seq<T>)
    ensures a + (b + c) == (a + b) + c
  {
  }

  lemma Halves<T>(a: seq<T>, i: nat, j: nat, k: nat)
    requires i <= j <= k <= |a|
    ensures a[i..k] == a[i..j] + a[j..k]
  {
  }

  // ------------------------------------------------------------------ stripping

  lemma {:induction false} LStripOver(blanks: string, t: string)
    requires AllSpace(blanks) && (t != [] ==> !IsSpace(t[0]))
    ensures LStrip(blanks + t) == t
  {
    if blanks == [] {
      assert blanks + t == t;
    } else {
      assert (blanks + t)[0] == blanks[0] && (blanks + t)[1..] == blanks[1..] + t;
      LStripOver(blanks[1..], t);
    }
  }

  lemma {:induction false} LStripSplits(s: string)
    ensures exists blanks :: AllSpace(blanks) && s == blanks + LStrip(s)
    ensures LStrip(s) != [] ==> !IsSpace(LStrip(s)[0])
  {
    if s != [] && IsSpace(s[0]) {
      LStripSplits(s[1..]);
      var b :| AllSpace(b) && s[1..] == b + LStrip(s[1..]);
      var blanks := [s[0]] + b;
      assert AllSpace(blanks) && s == blanks + LStrip(s);
    } else {
      assert AllSpace("") && s == "" + LStrip(s);
    }
  }

  lemma {:induction false} RStripSplits(s: string)
    ensures RStrip(s) <= s && AllSpace(s[|RStrip(s)|..])
    ensures RStrip(s) != [] ==> !IsSpace(RStrip(s)[|RStrip(s)| - 1])
    decreases |s|
  {
    if s != [] && IsSpace(s[|s| - 1]) {
      RStripSplits(s[..|s| - 1]);
      var r := RStrip(s);
      assert s[|r|..] == s[..|s| - 1][|r|..] + [s[|s| - 1]];
    }
  }

  lemma {:induction false} RStripOver(t: string, blanks: string)
    requires AllSpace(blanks) && t != [] && !IsSpace(t[|t| - 1])
    ensures RStrip(t + blanks) == t
    decreases |blanks|
  {
    if blanks == [] {
      assert t + blanks == t;
    } else {
      assert (t + blanks)[..|t + blanks| - 1] == t + blanks[..|blanks| - 1];
      RStripOver(t, blanks[..|blanks| - 1]);
    }
  }

  ghost predicate Trimmed(s: string, a: string, t: string, b: string) {
    && s == a + t + b && AllSpace(a) && AllSpace(b)
    && (t == [] || (!IsSpace(t[0]) && !IsSpace(t[|t| - 1])))
  }

  /** Stripping leaves the text between the whitespace at both ends. */
  lemma StripExact(s: string, t: string)
    ensures Strip(s) == t <==> exists a, b :: Trimmed(s, a, t, b)
  {
    var r := RStrip(s);
    RStripSplits(s);
    LStripSplits(r);
    if Strip(s) == t {
      var a :| AllSpace(a) && r == a + LStrip(r);
      assert s == r + s[|r|..];
      assert t != [] ==> t[|t| - 1] == r[|r| - 1];
      assert Trimmed(s, a, t, s[|r|..]);
    }
    forall a, b | Trimmed(s, a, t, b) ensures Strip(s) == t { StripOver(a, t, b); }
  }

  lemma StripOver(a: string, t: string, b: string)
    requires AllSpace(a) && AllSpace(b) && (t == [] || (!IsSpace(t[0]) && !IsSpace(t[|t| - 1])))
    ensures Strip(a + t + b) == t
  {
    if t == [] {
      assert a + t + b == a + b;
      SpacesGo(a + b);
    } else {
      assert (a + t)[|a + t| - 1] == t[|t| - 1];
      RStripOver(a + t, b);
      LStripOver(a, t);
    }
  }

  lemma {:induction false} SpacesGo(w: string)
    requires AllSpace(w)
    ensures RStrip(w) == []
    decreases |w|
  {
    if w != [] { SpacesGo(w[..|w| - 1]); }
  }

  // ------------------------------------------------------------- split / join

  /** `s.split(c)` for a one-character separator: never empty. */
  function SplitOn(s: string, c: char): (parts: seq<string>)
    ensures |parts| >= 1
  {
    if s == [] then [[]]
    else
      var rest := SplitOn(s[1..], c);
      if s[0] == c then [[]] + rest else [[s[0]] + rest[0]] + rest[1..]
  }

  /** `c.join(parts)`. */
  function Join(parts: seq<string>, c: char): string {
    if |parts| == 0 then []
    else if |parts| == 1 then parts[0]
    else parts[0] + [c] + Join(parts[1..], c)
  }

  ghost predicate Free(parts: seq<string>, c: char) {
    forall i :: 0 <= i < |parts| ==> c !in parts[i]
  }

  lemma {:induction false} JoinSplit(s: string, c: char)
    ensures Join(SplitOn(s, c), c) == s
    ensures Free(SplitOn(s, c), c)
    ensures |SplitOn(s, c)| == Count(s, c) + 1
  {
    if s != [] {
      JoinSplit(s[1..], c);
      var rest := SplitOn(s[1..], c);
      if s[0] == c {
        assert SplitOn(s, c)[1..] == rest;
        assert s == [c] + s[1..];
      } else {
        assert SplitOn(s, c)[1..] == rest[1..];
        assert s == [s[0]] + s[1..];
        if |rest| > 1 {
          assert Join(SplitOn(s, c), c) == [s[0]] + (rest[0] + [c] + Join(rest[1..], c));
        }
      }
    }
  }

  /** The parts of a concatenation: the last part of one run into the first of the other. */
  function Glue(pa: seq<string>, pb: seq<string>): seq<string>
    requires |pa| >= 1 && |pb| >= 1
  {
    pa[..|pa| - 1] + [pa[|pa| - 1] + pb[0]] + pb[1..]
  }

  lemma GlueStep(ra: seq<string>, pb: seq<string>, x: char)
    requires |ra| >= 1 && |pb| >= 1
    ensures Glue([[]] + ra, pb) == [[]] + Glue(ra, pb)
    ensures Glue([[x] + ra[0]] + ra[1..], pb) == [[x] + Glue(ra, pb)[0]] + Glue(ra, pb)[1..]
  {
    var pa := [[]] + ra;
    assert pa[..|pa| - 1] == [[]] + ra[..|ra| - 1];
    var px := [[x] + ra[0]] + ra[1..];
    if |ra| == 1 {
      assert px == [[x] + ra[0]];
      assert ([x] + ra[0]) + pb[0] == [x] + (ra[0] + pb[0]);
      assert Glue(px, pb) == [([x] + ra[0]) + pb[0]] + pb[1..];
      assert Glue(ra, pb) == [ra[0] + pb[0]] + pb[1..];
    } else {
      assert px[..|px| - 1] == [[x] + ra[0]] + ra[1..|ra| - 1];
      assert px[|px| - 1] == ra[|ra| - 1];
      assert Glue(ra, pb) == [ra[0]] + (ra[1..|ra| - 1] + [ra[|ra| - 1] + pb[0]] + pb[1..]);
    }
  }

  lemma {:induction false} SplitAppend(a: string, b: string, c: char)
    ensures SplitOn(a + b, c) == Glue(SplitOn(a, c), SplitOn(b, c))
  {
    var pb := SplitOn(b, c);
    if a == [] {
      assert a + b == b;
      assert "" + pb[0] == pb[0];
      assert Glue([""], pb) == [pb[0]] + pb[1..] == pb;
    } else {
      assert (a + b)[1..] == a[1..] + b && (a + b)[0] == a[0];
      SplitAppend(a[1..], b, c);
      GlueStep(SplitOn(a[1..], c), pb, a[0]);
    }
  }

  lemma {:induction false} SplitFree(s: string, c: char)
    requires c !in s
    ensures SplitOn(s, c) == [s]
  {
    if s != [] {
      assert s == [s[0]] + s[1..];
      assert c !in s[1..];
      SplitFree(s[1..], c);
    }
  }

  lemma {:induction false} SplitHead(p: string, t: string, c: char)
    requires c !in p
    ensures SplitOn(p + [c] + t, c) == [p] + SplitOn(t, c)
  {
    var s := p + [c] + t;
    if p == [] {
      assert s[1..] == t && s[0] == c;
    } else {
      assert s[1..] == p[1..] + [c] + t && s[0] == p[0];
      SplitHead(p[1..], t, c);
      assert p == [p[0]] + p[1..];
    }
  }

  lemma {:induction false} SplitJoin(parts: seq<string>, c: char)
    requires |parts| >= 1 && Free(parts, c)
    ensures SplitOn(Join(parts, c), c) == parts
  {
    if |parts| == 1 {
      SplitFree(parts[0], c);
    } else {
      SplitJoin(parts[1..], c);
      SplitHead(parts[0], Join(parts[1..], c), c);
    }
  }

  lemma {:induction false} JoinAppend(a: seq<string>, b: seq<string>, c: char)
    requires |a| >= 1 && |b| >= 1
    ensures Join(a + b, c) == Join(a, c) + [c] + Join(b, c)
  {
    if |a| == 1 {
      assert (a + b)[1..] == b;
    } else {
      assert (a + b)[1..] == a[1..] + b;
      JoinAppend(a[1..], b, c);
    }
  }

  // ---------------------------------------------------------------- numerals

  predicate Numeral(s: string) { |s| >= 1 && forall i :: 0 <= i < |s| ==> IsDigit(s[i]) }

  /** `int(s)` for a run of ASCII digits. */
  function ToInt(s: string): nat
    requires forall i :: 0 <= i < |s| ==> IsDigit(s[i])
  {
    if s == [] then 0
    else
      assert IsDigit(s[|s| - 1]);
      ToInt(s[..|s| - 1]) * 10 + (s[|s| - 1] as int - '0' as int)
  }

  /** `str(n)` for a natural number. */
  function ToStr(n: nat): (s: string)
    ensures Numeral(s)
  {
    if n < 10 then [('0' as int + n) as char] else ToStr(n / 10) + [('0' as int + n % 10) as char]
  }

  lemma {:induction false} ToIntToStr(n: nat)
    ensures ToInt(ToStr(n)) == n
  {
    if n >= 10 {
      ToIntToStr(n / 10);
      var s := ToStr(n);
      assert s[..|s| - 1] == ToStr(n / 10);
    } else {
      assert ToStr(n)[..0] == [];
    }
  }

  // ------------------------------------------------------------ string order

  /** Code-point lexicographic order, the order of Python's `sorted` on strings. */
  predicate LexLE(a: string, b: string) {
    if a == [] then true
    else if b == [] then false
    else if a[0] != b[0] then a[0] < b[0]
    else LexLE(a[1..], b[1..])
  }

  lemma {:induction false} LexTotal(a: string, b: string)
    ensures LexLE(a, b) || LexLE(b, a)
  {
    if a != [] && b != [] && a[0] == b[0] { LexTotal(a[1..], b[1..]); }
  }

  lemma {:induction false} LexAntisymmetric(a: string, b: string)
    requires LexLE(a, b) && LexLE(b, a)
    ensures a == b
  {
    if a != [] {
      LexAntisymmetric(a[1..], b[1..]);
      assert a == [a[0]] + a[1..] && b == [b[0]] + b[1..];
    }
  }

  lemma {:induction false} LexTransitive(a: string, b: string, c: string)
    requires LexLE(a, b) && LexLE(b, c)
    ensures LexLE(a, c)
  {
    if a != [] && b[0] == a[0] && b[0] == c[0] { LexTransitive(a[1..], b[1..], c[1..]); }
  }

  lemma {:induction false} LeastExists(s: set<string>)
    requires s != {}
    ensures exists m :: m in s && forall y :: y in s ==> LexLE(m, y)
  {
    var x :| x in s;
    LexTotal(x, x);
    var rest := s - {x};
    if rest == {} {
      assert s == rest + {x};
      assert x in s && forall y :: y in s ==> LexLE(x, y);
    } else {
      LeastExists(rest);
      var m :| m in rest && forall y :: y in rest ==> LexLE(m, y);
      LexTotal(x, m);
      var k := if LexLE(x, m) then x else m;
      forall y | y in s ensures LexLE(k, y) {
        if y != x && k == x { LexTransitive(x, m, y); }
      }
    }
  }

  lemma LeastUnique(s: set<string>)
    ensures forall a, b :: a in s && b in s && (forall y :: y in s ==> LexLE(a, y)) && (forall y :: y in s ==> LexLE(b, y)) ==> a == b
  {
    forall a, b | a in s && b in s && (forall y :: y in s ==> LexLE(a, y)) && (forall y :: y in s ==> LexLE(b, y))
      ensures a == b
    {
      LexAntisymmetric(a, b);
    }
  }

  /** `sorted(s)`. */
  function SortedKeys(s: set<string>): seq<string> {
    if s == {} then []
    else
      LeastExists(s);
      LeastUnique(s);
      var m :| m in s && forall y :: y in s ==> LexLE(m, y);
      [m] + SortedKeys(s - {m})
  }

  ghost predicate Distinct<T>(xs: seq<T>) {
    forall i, j :: 0 <= i < j < |xs| ==> xs[i] != xs[j]
  }

  lemma {:induction false} SortedKeysLists(s: set<string>)
    ensures forall x :: x in SortedKeys(s) <==> x in s
    ensures Distinct(SortedKeys(s))
  {
    if s != {} {
      var r := SortedKeys(s);
      SortedKeysLists(s - {r[0]});
      assert r[1..] == SortedKeys(s - {r[0]});
      assert r == [r[0]] + r[1..];
      forall i, j | 0 <= i < j < |r| ensures r[i] != r[j] {
        assert r[j] == r[1..][j - 1];
        if i > 0 { assert r[i] == r[1..][i - 1]; }
      }
    }
  }

  lemma SortedKeysCons(s: set<string>, m: string)
    requires m in s && forall y :: y in s ==> LexLE(m, y)
    ensures SortedKeys(s) == [m] + SortedKeys(s - {m})
  {
    LeastUnique(s);
  }

  /** The list is in code-point order. */
  lemma {:induction false} SortedKeysSorted(s: set<string>)
    ensures forall i, j :: 0 <= i < j < |SortedKeys(s)| ==> LexLE(SortedKeys(s)[i], SortedKeys(s)[j])
  {
    if s != {} {
      var r := SortedKeys(s);
      var rest := SortedKeys(s - {r[0]});
      SortedKeysSorted(s - {r[0]});
      SortedKeysLists(s - {r[0]});
      SortedKeysLists(s);
      assert r == [r[0]] + rest;
      forall i, j | 0 <= i < j < |r| ensures LexLE(r[i], r[j]) {
        assert r[j] == rest[j - 1] && r[j] in rest;
        if i > 0 { assert r[i] == rest[i - 1]; }
      }
    }
  }
}
