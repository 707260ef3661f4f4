/** What the pre-burn guard decides, in terms of the transcript: the grammar of its lines,
    the baseline, and the exact condition of each verdict. */
module AtocVerdicts {
  import opened PyText
  import opened AtocTable

  // ------------------------------------------------------------------ the baseline

  /** The firmware's own entries: three names, with or without the bank marker, on one cpu. */
  lemma BaselineExact(name: string, cpu: string)
    ensures Baseline((name, cpu)) <==>
            && cpu == "CM0+"
            && (name == "DEVICE" || name == "SERAM0" || name == "SERAM1" || name == "* DEVICE" || name == "* SERAM0" || name == "* SERAM1")
  {
    if |name| >= 2 && name[..2] == "* " {
      assert name == "* " + name[2..];
      Marked("DEVICE", name);
      Marked("SERAM0", name);
      Marked("SERAM1", name);
    }
    assert "DEVICE"[0] != '*' && "SERAM0"[0] != '*' && "SERAM1"[0] != '*';
    assert "* DEVICE"[2..] == "DEVICE" && "* SERAM0"[2..] == "SERAM0" && "* SERAM1"[2..] == "SERAM1";
    assert "* DEVICE"[..2] == "* " && "* SERAM0"[..2] == "* " && "* SERAM1"[..2] == "* ";
  }

  lemma Marked(base: string, name: string)
    ensures name == "* " + base ==> name[2..] == base
  {
  }

  /** The foreign list holds exactly the names, as they stand, of the entries that are
      neither baseline nor about to be rewritten. */
  lemma {:induction false} ForeignExact(resident: seq<(string, string)>, allowed: set<string>, n: string)
    ensures n in Foreign(resident, allowed) <==> exists c :: (n, c) in resident && !Baseline((n, c)) && n !in allowed
  {
    if resident != [] {
      ForeignExact(resident[1..], allowed, n);
      assert resident == [resident[0]] + resident[1..];
      var (n0, c0) := resident[0];
      assert resident[0] == (n0, c0);
    }
  }

  // --------------------------------------------------------------- the transcript

  predicate Blanks(s: string) { forall i :: 0 <= i < |s| ==> s[i] == ' ' || s[i] == '\t' }

  lemma {:induction false} LTrimSplits(s: string) returns (w: string)
    ensures s == w + LTrim(s) && Blanks(w) && (LTrim(s) != [] ==> !Blank(LTrim(s)[0]))
  {
    w := [];
    if s != [] && Blank(s[0]) {
      var v := LTrimSplits(s[1..]);
      w := [s[0]] + v;
      Assoc([s[0]], v, LTrim(s));
      assert s == [s[0]] + s[1..];
    }
  }

  lemma {:induction false} LTrimOver(w: string, t: string)
    requires Blanks(w) && (t != [] ==> !Blank(t[0]))
    ensures LTrim(w + t) == t
  {
    if w == [] {
      assert w + t == t;
    } else {
      assert (w + t)[0] == w[0] && (w + t)[1..] == w[1..] + t;
      LTrimOver(w[1..], t);
    }
  }

  lemma {:induction false} RTrimSplits(s: string) returns (w: string)
    ensures s == RTrim(s) + w && Blanks(w) && (RTrim(s) != [] ==> !Blank(RTrim(s)[|RTrim(s)| - 1]))
  {
    w := [];
    if s != [] && Blank(s[|s| - 1]) {
      var p, c := s[..|s| - 1], s[|s| - 1];
      var v := RTrimSplits(p);
      w := v + [c];
      Assoc(RTrim(s), v, [c]);
      assert s == p + [c];
    }
  }

  lemma {:induction false} RTrimOver(t: string, w: string)
    requires Blanks(w) && (t != [] ==> !Blank(t[|t| - 1]))
    ensures RTrim(t + w) == t
    decreases w
  {
    if w == [] {
      assert t + w == t;
    } else {
      assert (t + w)[..|t + w| - 1] == t + w[..|w| - 1];
      RTrimOver(t, w[..|w| - 1]);
    }
  }

  /** A table row: blanks and a bar. */
  lemma RowExact(line: string)
    ensures IsRow(line) <==> exists w, rest :: Blanks(w) && line == w + ("|" + rest)
  {
    var lead := LTrimSplits(line);
    var t := LTrim(line);
    if IsRow(line) {
      assert t == "|" + t[1..];
      assert line == lead + ("|" + t[1..]);
    }
    forall w, rest | Blanks(w) && line == w + ("|" + rest) ensures IsRow(line) { LTrimOver(w, "|" + rest); }
  }

  predicate Rule(s: string) { forall i :: 0 <= i < |s| ==> s[i] == '-' || s[i] == '+' }

  ghost predicate RuleForm(line: string, w1: string, mid: string, w2: string) {
    line == w1 + ("+" + mid + "+") + w2 && Blanks(w1) && Rule(mid) && Blanks(w2)
  }

  /** A separator: a run of dashes and pluses between two pluses, blanks around it. */
  lemma SeparatorExact(line: string)
    ensures IsSeparator(line) <==> exists w1, mid, w2 :: RuleForm(line, w1, mid, w2)
  {
    if IsSeparator(line) {
      var r := RTrim(line);
      var w2 := RTrimSplits(line);
      var w1 := LTrimSplits(r);
      RuleParts(line, w1, LTrim(r), w2);
    }
    forall w1, mid, w2 | RuleForm(line, w1, mid, w2) ensures IsSeparator(line) {
      var t := "+" + mid + "+";
      assert (w1 + t)[|w1 + t| - 1] == '+';
      RTrimOver(w1 + t, w2);
      LTrimOver(w1, t);
    }
  }

  lemma RuleParts(line: string, w1: string, t: string, w2: string)
    requires line == w1 + t + w2 && Blanks(w1) && Blanks(w2)
    requires |t| >= 2 && t[0] == '+' && t[|t| - 1] == '+' && forall i :: 0 < i < |t| ==> t[i] == '-' || t[i] == '+'
    ensures exists w, mid, v :: RuleForm(line, w, mid, v)
  {
    var mid := t[1..|t| - 1];
    assert t == "+" + mid + "+";
    assert RuleForm(line, w1, mid, w2);
  }

  /** A data row is a row whose first cell is a name: not empty, not the heading, not a
      run of dashes. */
  lemma DataExact(line: string)
    ensures IsData(line) <==>
            && IsRow(line) && NameOf(line) != "" && NameOf(line) != "Name"
            && exists i :: 0 <= i < |NameOf(line)| && NameOf(line)[i] != '-'
    ensures IsHeader(line) <==> IsRow(line) && NameOf(line) == "Name"
  {
  }

  // -------------------------------------------------------------- colour sequences

  predicate Params(s: string) { forall i :: 0 <= i < |s| ==> IsDigit(s[i]) || s[i] == ';' || s[i] == '?' }

  /** A colour sequence: ESC, `[`, digits, semicolons or question marks, and a letter. */
  ghost predicate Csi(s: string) {
    exists ps, c :: s == [ESC, '['] + ps + [c] && Params(ps) && ('a' <= c <= 'z' || 'A' <= c <= 'Z')
  }

  /** Plain text with a colour sequence after each part. */
  function Painted(parts: seq<(string, string)>): string {
    if parts == [] then [] else parts[0].0 + parts[0].1 + Painted(parts[1..])
  }

  function PlainParts(parts: seq<(string, string)>): string {
    if parts == [] then [] else parts[0].0 + PlainParts(parts[1..])
  }

  lemma {:induction false} ParamsRun(ps: string, rest: string, i: nat)
    requires Params(ps) && i <= |ps| && rest != [] && !IsParam(rest[0])
    ensures ParamRun([ESC, '['] + ps + rest, 2 + i) == 2 + |ps|
    decreases |ps| - i
  {
    var s := [ESC, '['] + ps + rest;
    if i < |ps| {
      assert s[2 + i] == ps[i];
      ParamsRun(ps, rest, i + 1);
    } else {
      assert s[2 + i] == rest[0];
    }
  }

  lemma CsiStripped(s: string, rest: string)
    requires Csi(s)
    ensures StripCsi(s + rest) == StripCsi(rest)
  {
    var ps, c :| s == [ESC, '['] + ps + [c] && Params(ps) && ('a' <= c <= 'z' || 'A' <= c <= 'Z');
    var t := s + rest;
    assert t == [ESC, '['] + ps + ([c] + rest);
    ParamsRun(ps, [c] + rest, 0);
    assert t[|ps| + 2] == c;
    assert CsiLen(t) == |s| && t[|s|..] == rest;
  }

  lemma {:induction false} PlainKept(a: string, rest: string)
    requires ESC !in a
    ensures StripCsi(a + rest) == a + StripCsi(rest)
  {
    if a == [] {
      assert a + rest == rest && [] + StripCsi(rest) == StripCsi(rest);
    } else {
      assert (a + rest)[0] == a[0] && (a + rest)[1..] == a[1..] + rest;
      PlainKept(a[1..], rest);
      assert a == [a[0]] + a[1..];
    }
  }

  /** Stripping a coloured text gives the text. */
  lemma {:induction false} StripPainted(parts: seq<(string, string)>)
    requires forall i :: 0 <= i < |parts| ==> ESC !in parts[i].0 && (parts[i].1 == [] || Csi(parts[i].1))
    ensures StripCsi(Painted(parts)) == PlainParts(parts)
  {
    if parts != [] {
      StripPainted(parts[1..]);
      var (a, c) := parts[0];
      var rest := Painted(parts[1..]);
      Assoc(a, c, rest);
      PlainKept(a, c + rest);
      if c == [] { assert c + rest == rest; } else { CsiStripped(c, rest); }
    }
  }

  // ----------------------------------------------------------- the blank-board reply

  predicate Pads(s: string) { forall i :: 0 <= i < |s| ==> Padding(s[i]) }

  lemma {:induction false} LowerAt(s: string)
    ensures |Lower(s)| == |s|
    ensures forall i :: 0 <= i < |s| ==> Lower(s)[i] == if 'A' <= s[i] <= 'Z' then (s[i] as int + 32) as char else s[i]
  {
    if s != [] { LowerAt(s[1..]); }
  }

  lemma {:induction false} PaddingSplits(s: string) returns (w1: string, w2: string)
    ensures s == w1 + StripPadding(s) + w2 && Pads(w1) && Pads(w2)
    decreases |s|
  {
    w1, w2 := [], [];
    if s != [] && Padding(s[0]) {
      w1, w2 := PaddingSplits(s[1..]);
      assert s == [s[0]] + s[1..];
      w1 := [s[0]] + w1;
    } else if s != [] && Padding(s[|s| - 1]) {
      w1, w2 := PaddingSplits(s[..|s| - 1]);
      assert s == s[..|s| - 1] + [s[|s| - 1]];
      w2 := w2 + [s[|s| - 1]];
    }
  }

  lemma {:induction false} PaddingOver(w1: string, t: string, w2: string)
    requires Pads(w1) && Pads(w2) && t != [] && !Padding(t[0]) && !Padding(t[|t| - 1])
    ensures StripPadding(w1 + t + w2) == t
    decreases |w1| + |w2|
  {
    var s := w1 + t + w2;
    if w1 != [] {
      assert s[0] == w1[0] && s[1..] == w1[1..] + t + w2;
      PaddingOver(w1[1..], t, w2);
    } else if w2 != [] {
      assert s[0] == t[0] && s[|s| - 1] == w2[|w2| - 1] && s[..|s| - 1] == w1 + t + w2[..|w2| - 1];
      PaddingOver(w1, t, w2[..|w2| - 1]);
    } else {
      assert s == t;
    }
  }

  ghost predicate ReplyForm(line: string, w1: string, t: string, w2: string) {
    line == w1 + t + w2 && Pads(w1) && Pads(w2) && Lower(t) == "no atoc found on target device."
  }

  /** The blank-board reply: the one sentence, in any case, between blanks. */
  lemma ReplyExact(line: string)
    ensures SaysEmpty(line) <==> exists w1, t, w2 :: ReplyForm(line, w1, t, w2)
  {
    if SaysEmpty(line) {
      var w1, w2 := PaddingSplits(line);
      assert ReplyForm(line, w1, StripPadding(line), w2);
    }
    forall w1, t, w2 | ReplyForm(line, w1, t, w2) ensures SaysEmpty(line) {
      LowerAt(t);
      assert Lower(t)[0] == 'n' && Lower(t)[|t| - 1] == '.';
      PaddingOver(w1, t, w2);
    }
  }

  // ------------------------------------------------------------------ the verdicts

  /** The query can be trusted: the tool is there, the banner is right, the read ended
      well, and it shows a blank board or a whole table. */
  ghost predicate Blankboard(available: bool, bannerOk: bool, text: string, rc: int) {
    available && bannerOk && rc == 0 && exists l :: l in Lines(text) && SaysEmpty(l)
  }

  ghost predicate WholeTable(available: bool, bannerOk: bool, text: string, rc: int) {
    && available && bannerOk && rc == 0 && (forall l :: l in Lines(text) ==> !SaysEmpty(l))
    && ClosedTable(Lines(text))
  }

  /** The table has a heading and a data row, and a separator below the last data row. */
  ghost predicate ClosedTable(ls: seq<string>) {
    && (exists i :: 0 <= i < |ls| && KindOf(ls[i]) == Header)
    && exists d, s :: 0 <= d < s < |ls| && KindOf(ls[d]) == Data && KindOf(ls[s]) == Separator && forall j :: s <= j < |ls| ==> KindOf(ls[j]) != Data
  }

  lemma CompleteExact(ls: seq<string>)
    ensures Complete(ls) <==> ClosedTable(ls)
  {
    if ClosedTable(ls) {
      var d, s :| 0 <= d < s < |ls| && KindOf(ls[d]) == Data && KindOf(ls[s]) == Separator && forall j :: s <= j < |ls| ==> KindOf(ls[j]) != Data;
      assert LastOf(ls, Data).value < s <= LastOf(ls, Separator).value;
    }
  }

  lemma {:induction false} SomeData(ls: seq<string>)
    ensures Resident(ls) != [] <==> exists i :: 0 <= i < |ls| && IsData(ls[i])
  {
    if ls != [] {
      SomeData(ls[1..]);
      assert ls == [ls[0]] + ls[1..];
      if i :| 0 <= i < |ls[1..]| && IsData(ls[1..][i]) { assert IsData(ls[i + 1]); }
      if i :| 0 <= i < |ls| && IsData(ls[i]) && i > 0 { assert IsData(ls[1..][i - 1]); }
    }
  }

  lemma StatusExact(available: bool, bannerOk: bool, text: string, rc: int)
    ensures var st := QueryStatus(available, bannerOk, text, rc);
            && (st == Empty <==> Blankboard(available, bannerOk, text, rc))
            && (st == Ok <==> WholeTable(available, bannerOk, text, rc))
  {
    SomeReply(Lines(text));
    TableExact(Lines(text));
  }

  lemma SomeReply(ls: seq<string>)
    ensures (exists i :: 0 <= i < |ls| && SaysEmpty(ls[i])) <==> exists l :: l in ls && SaysEmpty(l)
  {
    if l :| l in ls && SaysEmpty(l) {
      var i :| 0 <= i < |ls| && ls[i] == l;
    }
  }

  lemma TableExact(ls: seq<string>)
    ensures Resident(ls) != [] && Complete(ls) <==> ClosedTable(ls)
  {
    CompleteExact(ls);
    SomeData(ls);
    if ClosedTable(ls) {
      var d :| 0 <= d < |ls| && KindOf(ls[d]) == Data;
      assert IsData(ls[d]);
    }
  }

  /** The guard's verdict on a run. */
  function Guard(available: bool, bannerOk: bool, text: string, rc: int, allowed: set<string>, replace: bool): Verdict {
    Decide(QueryStatus(available, bannerOk, text, rc), Foreign(Resident(Lines(text)), allowed), replace)
  }

  /** When each verdict is given: the run is refused unverified when the query cannot be
      trusted and refused as foreign when an entry would be delisted, in both cases
      unless it is overridden; else the board is blank or the way is clear. */
  lemma VerdictExact(available: bool, bannerOk: bool, text: string, rc: int, allowed: set<string>, replace: bool)
    ensures var v := Guard(available, bannerOk, text, rc, allowed, replace);
            var trusted := Blankboard(available, bannerOk, text, rc) || WholeTable(available, bannerOk, text, rc);
            var foreign := exists n, c :: (n, c) in Resident(Lines(text)) && !Baseline((n, c)) && n !in allowed;
            && (v.RefusedUnverified? <==> !trusted && !replace)
            && (v.RefusedForeign? <==> trusted && foreign && !replace)
            && (v.Replaced? <==> replace && (!trusted || foreign))
            && (v.BlankBoard? <==> Blankboard(available, bannerOk, text, rc) && !foreign)
            && (v.Clear? <==> WholeTable(available, bannerOk, text, rc) && !foreign)
            && (v.RefusedForeign? ==> v.foreign == Foreign(Resident(Lines(text)), allowed))
            && (v.Replaced? ==> v.foreign == if trusted then Foreign(Resident(Lines(text)), allowed) else [])
  {
    StatusExact(available, bannerOk, text, rc);
    SomeForeign(Resident(Lines(text)), allowed);
  }

  lemma SomeForeign(resident: seq<(string, string)>, allowed: set<string>)
    ensures Foreign(resident, allowed) != [] <==> exists n, c :: (n, c) in resident && !Baseline((n, c)) && n !in allowed
  {
    var fs := Foreign(resident, allowed);
    if fs != [] {
      ForeignExact(resident, allowed, fs[0]);
      assert fs[0] in fs;
    }
    forall n, c | (n, c) in resident && !Baseline((n, c)) && n !in allowed ensures fs != [] { ForeignExact(resident, allowed, n); }
  }
}
