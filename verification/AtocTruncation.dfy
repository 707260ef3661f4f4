/** Safety of the resident-table reading over every truncation of a transcript. */
module AtocTruncation {
  import opened PyText
  import opened AtocTable

  // --------------------------------------------------- stripping commutes with cutting

  /** What a cut in the middle of an escape sequence leaves behind. */
  predicate Remnant(r: string) { r == [] || r[0] == ESC }

  ghost predicate NoBreaks(s: string) { forall i :: 0 <= i < |s| ==> s[i] != '\n' && s[i] != '\r' }

  /** The stripped prefix of a transcript is a prefix of the stripped transcript,
      possibly followed by an unfinished escape sequence. */
  lemma {:induction false} StripCsiCut(t: string, n: nat) returns (k: nat, rest: string)
    requires n <= |t|
    ensures k <= |StripCsi(t)| && StripCsi(t[..n]) == StripCsi(t)[..k] + rest
    ensures Remnant(rest) && NoBreaks(rest)
    decreases |t|
  {
    if n == 0 {
      k, rest := 0, [];
    } else {
      var p := t[..n];
      var c := CsiLen(t);
      if c > 0 && c <= n {
        CsiLenCut(t, n);
        assert p[c..] == t[c..][..n - c];
        k, rest := StripCsiCut(t[c..], n - c);
      } else if c > n {
        CsiUnfinished(t, n);
        k, rest := 0, p;
      } else {
        CsiLenCut(t, n);
        assert p[1..] == t[1..][..n - 1];
        var k0;
        k0, rest := StripCsiCut(t[1..], n - 1);
        k := k0 + 1;
        PlainStep(t[0], StripCsi(p[1..]), StripCsi(t[1..]), k0, rest);
      }
    }
  }

  lemma PlainStep(c: char, cut: string, s: string, k: nat, rest: string)
    requires k <= |s| && cut == s[..k] + rest
    ensures k + 1 <= |[c] + s| && [c] + cut == ([c] + s)[..k + 1] + rest
  {
    assert ([c] + s)[..k + 1] == [c] + s[..k];
    Assoc([c], s[..k], rest);
  }

  lemma {:induction false} ParamRunCut(t: string, n: nat, i: nat)
    requires i <= n <= |t|
    ensures ParamRun(t[..n], i) == if ParamRun(t, i) < n then ParamRun(t, i) else n
    decreases n - i
  {
    if i < n && IsParam(t[i]) { ParamRunCut(t, n, i + 1); }
  }

  lemma CsiLenCut(t: string, n: nat)
    requires 0 < n <= |t| && CsiLen(t) <= n
    ensures CsiLen(t[..n]) == CsiLen(t)
  {
    if n >= 2 { ParamRunCut(t, n, 2); }
  }

  lemma CsiUnfinished(t: string, n: nat)
    requires 0 < n < CsiLen(t)
    ensures StripCsi(t[..n]) == t[..n] && Remnant(t[..n]) && NoBreaks(t[..n])
  {
    var p := t[..n];
    if n >= 2 { ParamRunCut(t, n, 2); }
    forall i | 1 <= i < n ensures p[i] != ESC && p[i] != '\n' && p[i] != '\r' {
      if i > 1 { assert IsParam(t[i]); }
    }
    PlainStrip(p[1..]);
    assert p == [p[0]] + p[1..];
  }

  lemma {:induction false} PlainStrip(s: string)
    requires forall i :: 0 <= i < |s| ==> s[i] != ESC
    ensures StripCsi(s) == s
    decreases |s|
  {
    if s != [] {
      PlainStrip(s[1..]);
      assert s == [s[0]] + s[1..];
    }
  }

  lemma {:induction false} DropCrAppend(a: string, b: string)
    ensures DropCr(a + b) == DropCr(a) + DropCr(b)
  {
    if a == [] {
      assert a + b == b;
    } else {
      assert (a + b)[0] == a[0] && (a + b)[1..] == a[1..] + b;
      DropCrAppend(a[1..], b);
    }
  }

  lemma {:induction false} DropCrNone(s: string)
    requires forall i :: 0 <= i < |s| ==> s[i] != '\r'
    ensures DropCr(s) == s
  {
    if s != [] {
      DropCrNone(s[1..]);
      assert s == [s[0]] + s[1..];
    }
  }

  /** The lines of a cut transcript: whole lines of the original, then one partial
      line, which may end in an unfinished escape sequence. */
  lemma CutLines(t: string, n: nat) returns (m: nat, q: nat, rest: string)
    requires n <= |t|
    ensures m < |Lines(t)| && q <= |Lines(t)[m]| && Remnant(rest)
    ensures Lines(t[..n]) == Lines(t)[..m] + [Lines(t)[m][..q] + rest]
  {
    var k;
    k, rest := StripCsiCut(t, n);
    var s := StripCsi(t);
    var u, w := DropCr(s[..k]), DropCr(s[k..]);
    assert s == s[..k] + s[k..];
    DropCrAppend(s[..k], s[k..]);
    DropCrAppend(s[..k], rest);
    DropCrNone(rest);
    SplitAppend(u, w, '\n');
    SplitAppend(u, rest, '\n');
    SplitFree(rest, '\n');
    var su, sw := SplitOn(u, '\n'), SplitOn(w, '\n');
    m := |su| - 1;
    q := |su[m]|;
    GlueCut(su, sw, rest);
  }

  lemma GlueCut(su: seq<string>, sw: seq<string>, rest: string)
    requires su != [] && sw != []
    ensures var m, g := |su| - 1, Glue(su, sw);
            && m < |g| && |su[m]| <= |g[m]|
            && Glue(su, [rest]) == g[..m] + [g[m][..|su[m]|] + rest]
  {
    var m, g := |su| - 1, Glue(su, sw);
    assert g[..m] == su[..m] && g[m] == su[m] + sw[0];
    assert g[m][..|su[m]|] == su[m];
  }

  // ----------------------------------------------------------- the shape of a table

  /** Some prefix of the line is a separator. */
  ghost predicate SeparatorLike(line: string) {
    exists k :: 0 <= k <= |line| && IsSeparator(line[..k])
  }

  /** No line that could read as a separator stands between two data rows. */
  ghost predicate RowsTogether(ls: seq<string>) {
    forall i, j, k :: 0 <= i < j < k < |ls| && IsData(ls[i]) && IsData(ls[k]) ==> !SeparatorLike(ls[j])
  }

  lemma {:induction false} TrimFacts(s: string)
    ensures LTrim(RTrim(s)) == RTrim(LTrim(s))
    ensures forall c :: c in Trim(s) ==> c in s
    ensures forall c :: c in s && !Blank(c) ==> c in Trim(s)
    ensures LTrim(s) == [] <==> Trim(s) == []
    ensures Trim(s) != [] ==> LTrim(s)[0] == Trim(s)[0]
    decreases |s|
  {
    if s != [] {
      if Blank(s[|s| - 1]) {
        var r := s[..|s| - 1];
        TrimFacts(r);
        assert s == r + [s[|s| - 1]];
        LTrimSnoc(r, s[|s| - 1]);
      } else {
        LTrimKeeps(s);
      }
    }
  }

  lemma {:induction false} LTrimSnoc(r: string, c: char)
    requires Blank(c)
    ensures LTrim(r) == [] ==> LTrim(r + [c]) == []
    ensures LTrim(r) != [] ==> LTrim(r + [c]) == LTrim(r) + [c]
  {
    if r == [] {
      assert r + [c] == [c] && [c][1..] == [];
    } else {
      assert (r + [c])[0] == r[0] && (r + [c])[1..] == r[1..] + [c];
      if Blank(r[0]) { LTrimSnoc(r[1..], c); }
    }
  }

  lemma {:induction false} LTrimKeeps(s: string)
    requires s != [] && !Blank(s[|s| - 1])
    ensures LTrim(s) != [] && LTrim(s)[|LTrim(s)| - 1] == s[|s| - 1]
    ensures forall c :: c in LTrim(s) ==> c in s
    ensures forall c :: c in s && !Blank(c) ==> c in LTrim(s)
  {
    if Blank(s[0]) {
      assert s == [s[0]] + s[1..];
      LTrimKeeps(s[1..]);
    }
  }

  /** A separator is never a row, and holds no escape character. */
  lemma SeparatorIsNoRow(line: string)
    requires IsSeparator(line)
    ensures !IsRow(line) && ESC !in line && LTrim(line) != [] && LTrim(line)[0] == '+'
  {
    TrimFacts(line);
    assert ESC in line ==> ESC in Trim(line);
  }

  lemma {:induction false} LTrimCut(s: string, k: nat)
    requires k <= |s| && LTrim(s[..k]) != []
    ensures LTrim(s) != [] && LTrim(s)[0] == LTrim(s[..k])[0]
  {
    if Blank(s[0]) {
      assert s[..k][1..] == s[1..][..k - 1];
      LTrimCut(s[1..], k - 1);
    }
  }

  /** A line that could read as a separator is never a row. */
  lemma SeparatorLikeIsNoRow(line: string)
    requires SeparatorLike(line)
    ensures !IsRow(line)
  {
    var k :| 0 <= k <= |line| && IsSeparator(line[..k]);
    SeparatorIsNoRow(line[..k]);
    TrimFacts(line[..k]);
    LTrimCut(line, k);
  }

  lemma {:induction false} ResidentAppend(a: seq<string>, b: seq<string>)
    ensures Resident(a + b) == Resident(a) + Resident(b)
  {
    if a == [] {
      assert a + b == b;
    } else {
      assert (a + b)[0] == a[0] && (a + b)[1..] == a[1..] + b;
      ResidentAppend(a[1..], b);
    }
  }

  lemma {:induction false} ResidentNone(ls: seq<string>)
    requires forall i :: 0 <= i < |ls| ==> !IsData(ls[i])
    ensures Resident(ls) == []
  {
    if ls != [] { ResidentNone(ls[1..]); }
  }

  /** A cut table: whole lines, then a partial one. */
  ghost predicate CutOf(cut: seq<string>, ls: seq<string>, m: nat, q: nat, rest: string) {
    && m < |ls| && q <= |ls[m]| && Remnant(rest)
    && cut == ls[..m] + [ls[m][..q] + rest]
  }

  lemma RemnantShows(a: string, rest: string)
    requires Remnant(rest)
    ensures rest != [] ==> ESC in a + rest
  {
    if rest != [] { assert (a + rest)[|a|] == ESC; }
  }

  lemma CutSeparatorLike(ls: seq<string>, cut: seq<string>, m: nat, q: nat, rest: string, sep: nat)
    requires CutOf(cut, ls, m, q, rest) && sep < |cut| && IsSeparator(cut[sep])
    ensures SeparatorLike(ls[sep])
  {
    if sep == m {
      var last := ls[m][..q] + rest;
      SeparatorIsNoRow(last);
      RemnantShows(ls[m][..q], rest);
      assert last == ls[m][..q];
    } else {
      assert ls[sep][..|ls[sep]|] == ls[sep];
    }
  }

  /** The cut of a complete reading falls after the last data row. */
  lemma CompleteCutRows(ls: seq<string>, cut: seq<string>, m: nat, q: nat, rest: string)
    requires CutOf(cut, ls, m, q, rest) && Complete(cut) && RowsTogether(ls)
    ensures !IsData(cut[m])
    ensures forall k :: m <= k < |ls| ==> !IsData(ls[k])
  {
    var row, sep := LastOf(cut, Data).value, LastOf(cut, Separator).value;
    assert row < sep <= m && KindOf(cut[m]) != Data && KindOf(cut[row]) == Data;
    if IsSeparator(cut[m]) { SeparatorIsNoRow(cut[m]); }
    CutSeparatorLike(ls, cut, m, q, rest, sep);
    SeparatorLikeIsNoRow(ls[sep]);
    assert cut[row] == ls[row];
  }

  /** A complete reading of a cut table has seen every data row. */
  lemma CompleteCutHasAllRows(ls: seq<string>, cut: seq<string>, m: nat, q: nat, rest: string)
    requires CutOf(cut, ls, m, q, rest) && Complete(cut) && RowsTogether(ls)
    ensures Resident(cut) == Resident(ls)
  {
    CompleteCutRows(ls, cut, m, q, rest);
    var last := [cut[m]];
    assert cut == ls[..m] + last && ls == ls[..m] + ls[m..];
    ResidentAppend(ls[..m], last);
    ResidentAppend(ls[..m], ls[m..]);
    ResidentNone(ls[m..]);
    ResidentNone(last);
  }

  /** Truncation safety: when no separator-like line parts the data rows, a reading of
      any prefix of the transcript is "ok" only if it lists every resident entry. */
  lemma TruncationSafe(available: bool, bannerOk: bool, t: string, n: nat, rc: int)
    requires n <= |t| && RowsTogether(Lines(t))
    requires QueryStatus(available, bannerOk, t[..n], rc) == Ok
    ensures Resident(Lines(t[..n])) == Resident(Lines(t))
  {
    var m, q, rest := CutLines(t, n);
    CompleteCutHasAllRows(Lines(t), Lines(t[..n]), m, q, rest);
  }

  // ------------------------------------------------------------------- exactness

  ghost predicate EveryCutSafe(t: string) {
    forall n :: 0 <= n <= |t| && Complete(Lines(t[..n])) ==> Resident(Lines(t[..n])) == Resident(Lines(t))
  }

  ghost predicate HeaderFirst(ls: seq<string>) {
    exists h :: 0 <= h < |ls| && IsHeader(ls[h]) && forall i :: 0 <= i <= h ==> !IsData(ls[i])
  }

  ghost predicate Uncoloured(t: string) { forall i :: 0 <= i < |t| ==> t[i] != ESC && t[i] != '\r' }

  lemma PlainLines(t: string)
    requires Uncoloured(t)
    ensures Lines(t) == SplitOn(t, '\n')
  {
    PlainStrip(t);
    DropCrNone(t);
  }

  /** The prefix of an uncoloured transcript that ends inside line `j`. */
  lemma CutInside(t: string, j: nat, k: nat) returns (n: nat)
    requires Uncoloured(t) && j < |Lines(t)| && k <= |Lines(t)[j]|
    ensures n <= |t| && Lines(t[..n]) == Lines(t)[..j] + [Lines(t)[j][..k]]
  {
    PlainLines(t);
    JoinSplit(t, '\n');
    var ls := Lines(t);
    var cut := ls[..j] + [ls[j][..k]];
    assert Free(cut, '\n');
    SplitJoin(cut, '\n');
    JoinCut(ls, j, k);
    n := |Join(cut, '\n')|;
    assert t[..n] == Join(cut, '\n');
    assert Uncoloured(t[..n]);
    PlainLines(t[..n]);
  }

  lemma {:induction false} JoinCut(ls: seq<string>, j: nat, k: nat)
    requires j < |ls| && k <= |ls[j]|
    ensures Join(ls[..j] + [ls[j][..k]], '\n') <= Join(ls, '\n')
    decreases j
  {
    var cut := ls[..j] + [ls[j][..k]];
    if j == 0 {
      assert cut == [ls[0][..k]];
    } else {
      assert cut[1..] == ls[1..][..j - 1] + [ls[1..][j - 1][..k]];
      JoinCut(ls[1..], j - 1, k);
    }
  }

  lemma {:induction false} ResidentLonger(ls: seq<string>, i: nat)
    requires i < |ls| && IsData(ls[i])
    ensures |Resident(ls)| >= 1
  {
    if i > 0 { ResidentLonger(ls[1..], i - 1); }
  }

  /** For an uncoloured transcript whose header precedes its data rows, the condition
      is exact: every cut is safe if and only if no separator-like line parts the rows. */
  lemma TruncationExact(t: string)
    requires Uncoloured(t) && HeaderFirst(Lines(t))
    ensures EveryCutSafe(t) <==> RowsTogether(Lines(t))
  {
    var ls := Lines(t);
    if RowsTogether(ls) {
      forall n | 0 <= n <= |t| && Complete(Lines(t[..n])) ensures Resident(Lines(t[..n])) == Resident(ls) {
        var m, q, rest := CutLines(t, n);
        CompleteCutHasAllRows(ls, Lines(t[..n]), m, q, rest);
      }
    } else {
      var i, j, k :| 0 <= i < j < k < |ls| && IsData(ls[i]) && IsData(ls[k]) && SeparatorLike(ls[j]);
      PartedTableUnsafe(t, i, j, k);
    }
  }

  lemma PartedCutComplete(ls: seq<string>, h: nat, i: nat, j: nat, q: nat)
    requires h < i < j < |ls| && q <= |ls[j]|
    requires IsHeader(ls[h]) && IsData(ls[i]) && IsSeparator(ls[j][..q])
    ensures Complete(ls[..j] + [ls[j][..q]])
  {
    var cut := ls[..j] + [ls[j][..q]];
    assert cut[j] == ls[j][..q] && cut[h] == ls[h] && cut[i] == ls[i];
    RowsAreNotSeparators(ls[h]);
    RowsAreNotSeparators(ls[i]);
    assert KindOf(cut[j]) == Separator && KindOf(cut[h]) == Header && KindOf(cut[i]) == Data;
  }

  lemma PartedCutShort(ls: seq<string>, j: nat, k: nat, last: string)
    requires j < k < |ls| && IsData(ls[k]) && !IsData(last)
    ensures |Resident(ls[..j] + [last])| < |Resident(ls)|
  {
    ResidentAppend(ls[..j], [last]);
    ResidentNone([last]);
    ResidentAppend(ls[..j], ls[j..]);
    assert ls == ls[..j] + ls[j..] && ls[j..][k - j] == ls[k];
    ResidentLonger(ls[j..], k - j);
  }

  lemma PartedTableUnsafe(t: string, i: nat, j: nat, k: nat)
    requires Uncoloured(t) && HeaderFirst(Lines(t))
    requires i < j < k < |Lines(t)| && IsData(Lines(t)[i]) && IsData(Lines(t)[k]) && SeparatorLike(Lines(t)[j])
    ensures !EveryCutSafe(t)
  {
    var ls := Lines(t);
    var q :| 0 <= q <= |ls[j]| && IsSeparator(ls[j][..q]);
    var n := CutInside(t, j, q);
    SeparatorIsNoRow(ls[j][..q]);
    var h :| 0 <= h < |ls| && IsHeader(ls[h]) && forall x :: 0 <= x <= h ==> !IsData(ls[x]);
    PartedCutComplete(ls, h, i, j, q);
    PartedCutShort(ls, j, k, ls[j][..q]);
  }

  lemma RowsAreNotSeparators(line: string)
    requires IsRow(line)
    ensures !IsSeparator(line)
  {
    if IsSeparator(line) { SeparatorIsNoRow(line); }
  }

  // ------------------------------------------------------------------- printed tables

  datatype Cell = Cell(left: string, text: string, right: string)

  ghost predicate Pad(s: string) { forall i :: 0 <= i < |s| ==> Blank(s[i]) }

  ghost predicate Plain(s: string) {
    && s != [] && !Blank(s[0]) && !Blank(s[|s| - 1])
    && '|' !in s && '\n' !in s
  }

  /** A printed table row: margin, name cell, cpu cell, whatever follows. */
  function RowLine(margin: string, name: Cell, cpu: Cell, rest: string): string {
    margin + "|" + (name.left + name.text + name.right) + "|" + (cpu.left + cpu.text + cpu.right) + "|" + rest
  }

  ghost predicate GoodRow(margin: string, name: Cell, cpu: Cell) {
    && Pad(margin) && Pad(name.left) && Pad(name.right) && Pad(cpu.left) && Pad(cpu.right)
    && Plain(name.text) && Plain(cpu.text)
    && name.text != HEADER && !DashOnly(name.text)
  }

  lemma {:induction false} LTrimPad(p: string, s: string)
    requires Pad(p)
    ensures LTrim(p + s) == LTrim(s)
  {
    if p == [] {
      assert p + s == s;
    } else {
      assert (p + s)[0] == p[0] && (p + s)[1..] == p[1..] + s;
      assert Pad(p[1..]) by { assert forall i :: 0 <= i < |p[1..]| ==> p[1..][i] == p[i + 1]; }
      LTrimPad(p[1..], s);
    }
  }

  lemma {:induction false} RTrimPad(s: string, p: string)
    requires Pad(p)
    ensures RTrim(s + p) == RTrim(s)
  {
    if p == [] {
      assert s + p == s;
    } else {
      assert (s + p)[..|s + p| - 1] == s + p[..|p| - 1];
      RTrimPad(s, p[..|p| - 1]);
    }
  }

  lemma TrimCell(c: Cell)
    requires Pad(c.left) && Pad(c.right) && Plain(c.text)
    ensures Trim(c.left + c.text + c.right) == c.text
  {
    RTrimPad(c.left + c.text, c.right);
    var s := c.left + c.text;
    assert s[|s| - 1] == c.text[|c.text| - 1];
    assert RTrim(s) == s;
    LTrimPad(c.left, c.text);
  }

  lemma CellFree(c: Cell)
    requires Pad(c.left) && Pad(c.right) && Plain(c.text)
    ensures '|' !in c.left + c.text + c.right
  {
  }

  lemma RowFields(margin: string, n: string, c: string, rest: string)
    requires '|' !in margin && '|' !in n && '|' !in c
    ensures var fields := SplitOn(margin + "|" + n + "|" + c + "|" + rest, '|');
            |fields| >= 3 && fields[1] == n && fields[2] == c
  {
    var tail1 := c + ['|'] + rest;
    var tail0 := n + ['|'] + tail1;
    assert margin + "|" + n + "|" + c + "|" + rest == margin + ['|'] + tail0;
    SplitHead(c, rest, '|');
    SplitHead(n, tail1, '|');
    SplitHead(margin, tail0, '|');
  }

  /** A printed row parses back to its name and cpu. */
  lemma RowParses(margin: string, name: Cell, cpu: Cell, rest: string)
    requires GoodRow(margin, name, cpu)
    ensures var line := RowLine(margin, name, cpu, rest);
            IsData(line) && NameOf(line) == name.text && CpuOf(line) == cpu.text
  {
    CellFree(name);
    CellFree(cpu);
    RowReads(margin, name.left + name.text + name.right, cpu.left + cpu.text + cpu.right, rest);
    TrimCell(name);
    TrimCell(cpu);
  }

  lemma RowReads(margin: string, n: string, c: string, rest: string)
    requires Pad(margin) && '|' !in n && '|' !in c
    ensures var line := margin + "|" + n + "|" + c + "|" + rest;
            IsRow(line) && NameOf(line) == Trim(n) && CpuOf(line) == Trim(c)
  {
    assert '|' !in margin;
    RowFields(margin, n, c, rest);
    var tail := n + "|" + c + "|" + rest;
    RowStarts(margin, tail);
    assert margin + "|" + n + "|" + c + "|" + rest == margin + ("|" + tail);
  }

  lemma RowStarts(margin: string, tail: string)
    requires Pad(margin)
    ensures IsRow(margin + ("|" + tail))
  {
    LTrimPad(margin, "|" + tail);
  }

  /** A table whose rows stand together, with no row before or after them, is safe to
      cut anywhere; separators and other text may surround the rows. */
  lemma TableRowsTogether(before: seq<string>, rows: seq<string>, after: seq<string>)
    requires forall l :: l in before || l in after ==> !IsData(l)
    requires forall l :: l in rows ==> IsRow(l)
    ensures RowsTogether(before + rows + after)
  {
    var ls := before + rows + after;
    forall x | 0 <= x < |before| ensures !IsData(ls[x]) { assert ls[x] in before; }
    forall x | |before| + |rows| <= x < |ls| ensures !IsData(ls[x]) { assert ls[x] in after; }
    forall i, j, k | 0 <= i < j < k < |ls| && IsData(ls[i]) && IsData(ls[k]) ensures !SeparatorLike(ls[j]) {
      assert ls[j] == rows[j - |before|];
      if SeparatorLike(ls[j]) { SeparatorLikeIsNoRow(ls[j]); }
    }
  }

  // -------------------------------------------------------------------- the guard

  /** Some prefix of the line says the board is blank. */
  ghost predicate EmptyLike(line: string) { exists k :: 0 <= k <= |line| && SaysEmpty(line[..k]) }

  lemma {:induction false} LowerKeepsEsc(s: string)
    ensures |Lower(s)| == |s| && forall i :: 0 <= i < |s| && s[i] == ESC ==> Lower(s)[i] == ESC
  {
    if s != [] { LowerKeepsEsc(s[1..]); }
  }

  lemma {:induction false} StripPaddingKeeps(s: string, c: char)
    requires c in s && !Padding(c)
    ensures c in StripPadding(s)
  {
    if Padding(s[0]) {
      assert s == [s[0]] + s[1..];
      StripPaddingKeeps(s[1..], c);
    } else if Padding(s[|s| - 1]) {
      assert s == s[..|s| - 1] + [s[|s| - 1]];
      StripPaddingKeeps(s[..|s| - 1], c);
    }
  }

  lemma EscIsNotEmpty(line: string)
    requires ESC in line
    ensures !SaysEmpty(line)
  {
    StripPaddingKeeps(line, ESC);
    var s := StripPadding(line);
    LowerKeepsEsc(s);
    var i :| 0 <= i < |s| && s[i] == ESC;
    assert Lower(s)[i] == ESC;
    assert forall k :: 0 <= k < |NO_ATOC| ==> NO_ATOC[k] != ESC;
  }

  /** When no line of the full transcript could read as the blank-board reply, no cut
      of it is reported empty. */
  lemma CutNotEmpty(available: bool, bannerOk: bool, t: string, n: nat, rc: int)
    requires n <= |t| && forall l :: l in Lines(t) ==> !EmptyLike(l)
    ensures QueryStatus(available, bannerOk, t[..n], rc) != Empty
  {
    var m, q, rest := CutLines(t, n);
    var cut := Lines(t[..n]);
    forall i | 0 <= i < |cut| ensures !SaysEmpty(cut[i]) {
      if i < m {
        var l := Lines(t)[i];
        assert cut[i] == l && l in Lines(t) && l[..|l|] == l;
      } else if rest != [] {
        assert cut[m][q] == ESC;
        EscIsNotEmpty(cut[m]);
      } else {
        assert cut[m] == Lines(t)[m][..q] && Lines(t)[m] in Lines(t);
      }
    }
  }

  /** For an uncoloured transcript of a board that answers, that is exact: some cut of it
      is reported empty if and only if some line begins with the blank-board reply. */
  lemma CutEmptyExact(t: string)
    requires Uncoloured(t)
    ensures (exists n :: 0 <= n <= |t| && QueryStatus(true, true, t[..n], 0) == Empty) <==> exists l :: l in Lines(t) && EmptyLike(l)
  {
    if exists l :: l in Lines(t) && EmptyLike(l) {
      var j :| 0 <= j < |Lines(t)| && EmptyLike(Lines(t)[j]);
      var k :| 0 <= k <= |Lines(t)[j]| && SaysEmpty(Lines(t)[j][..k]);
      var n := CutInside(t, j, k);
      assert Lines(t[..n])[j] == Lines(t)[j][..k];
    } else {
      forall n | 0 <= n <= |t| ensures QueryStatus(true, true, t[..n], 0) != Empty { CutNotEmpty(true, true, t, n, 0); }
    }
  }

  lemma {:induction false} ForeignFacts(resident: seq<(string, string)>, allowed: set<string>)
    ensures Foreign(resident, allowed) == [] <==> forall e :: e in resident ==> Baseline(e) || e.0 in allowed
  {
    if resident != [] {
      var rest := resident[1..];
      ForeignFacts(rest, allowed);
      assert forall e :: e in resident <==> e == resident[0] || e in rest by { assert resident == [resident[0]] + rest; }
      assert Foreign(resident, allowed) == [] <==> (Baseline(resident[0]) || resident[0].0 in allowed) && Foreign(rest, allowed) == [];
    }
  }

  /** End to end: whatever prefix of the transcript the guard saw, a run it does not
      refuse and nobody overrides delists nothing: every resident entry of the full
      table is firmware baseline or is about to be rewritten. */
  lemma BurnDelistsNothing(available: bool, bannerOk: bool, t: string, n: nat, rc: int, allowed: set<string>)
    requires n <= |t| && RowsTogether(Lines(t)) && forall l :: l in Lines(t) ==> !EmptyLike(l)
    requires var status := QueryStatus(available, bannerOk, t[..n], rc);
             !Refused(Decide(status, Foreign(Resident(Lines(t[..n])), allowed), false))
    ensures forall e :: e in Resident(Lines(t)) ==> Baseline(e) || e.0 in allowed
  {
    CutNotEmpty(available, bannerOk, t, n, rc);
    TruncationSafe(available, bannerOk, t, n, rc);
    ForeignFacts(Resident(Lines(t)), allowed);
  }
}
