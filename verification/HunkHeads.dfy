/** The lines the diff reader acts on, in text: which lines are hunk headers and with what
    numbers, and what every line does to the reader. */
module HunkHeads {
  import opened PyText
  import opened HunkLines

  ghost predicate One(t: string, n: nat) { Numeral(t) && ToInt(t) == n }

  /** A start and a count: `n`, or `n,c`; the count is 1 when it is not there. */
  ghost predicate Side(t: string, n: nat, c: nat) {
    || (One(t, n) && c == 1)
    || exists d, e :: One(d, n) && One(e, c) && t == d + ("," + e)
  }

  /** `@@ -A +B @@` and anything behind it. */
  ghost predicate Head(line: string, on: nat, ns: nat, nn: nat) {
    exists os: nat, a, b, rest :: HeadText(line, a, b, rest) && Side(a, os, on) && Side(b, ns, nn)
  }

  ghost predicate HeadText(line: string, a: string, b: string, rest: string) {
    line == "@@ -" + a + (" +" + b + (" @@" + rest))
  }

  // ------------------------------------------------------------------- reading back

  lemma DigitsRead(p: string, d: string, n: nat, b: string)
    requires One(d, n) && (b == [] || !IsDigit(b[0]))
    ensures NumberAt(p + d + b, |p|) == Some((n, |p + d|))
  {
    DigitsEnd(p, d, b, 0);
    assert (p + d + b)[|p|..|p| + |d|] == d;
  }

  lemma SideReads(p: string, w: string, t: string, n: nat, c: nat, b: string)
    requires Side(t, n, c) && b != [] && b[0] == ' '
    ensures Part(p + w + t + b, |p|, w) == Some((n, c, |p + w + t|))
  {
    if One(t, n) && c == 1 {
      BareReads(p, w, t, n, b);
    } else {
      var d, e :| One(d, n) && One(e, c) && t == d + ("," + e);
      CountedReads(p, w, d, n, e, c, b);
    }
  }

  lemma BareReads(p: string, w: string, d: string, n: nat, b: string)
    requires One(d, n) && b != [] && b[0] == ' '
    ensures Part(p + w + d + b, |p|, w) == Some((n, 1, |p + w + d|))
  {
    var s := p + w + d + b;
    Assoc(p + w, d, b);
    PastReads(p, w, d + b);
    DigitsRead(p + w, d, n, b);
    assert s[|p + w + d|] == ' ';
    assert s[|p + w + d|..|p + w + d| + 1] == " ";
  }

  lemma CountedReads(p: string, w: string, d: string, n: nat, e: string, c: nat, b: string)
    requires One(d, n) && One(e, c) && b != [] && b[0] == ' '
    ensures Part(p + w + (d + ("," + e)) + b, |p|, w) == Some((n, c, |p + w + (d + ("," + e))|))
  {
    var x := "," + e;
    assert !IsDigit((x + b)[0]);
    DigitsRead(p + w, d, n, x + b);
    CountRead(p + w + d, e, c, b);
    PartStages(p, w, d, x, b, n, c);
    Assoc(p + w, d, x);
  }

  lemma CountRead(q: string, e: string, c: nat, b: string)
    requires One(e, c) && b != [] && b[0] == ' '
    ensures CountAt(q + ("," + e) + b, |q|) == (c, |q + ("," + e)|)
  {
    Assoc(q, ",", e);
    Assoc(q + ",", e, b);
    PastReads(q, ",", e + b);
    DigitsRead(q + ",", e, c, b);
  }

  // ---------------------------------------------------------------- reading forwards

  lemma NumberSound(s: string, i: nat)
    requires i <= |s| && NumberAt(s, i).Some?
    ensures One(s[i..NumberAt(s, i).value.1], NumberAt(s, i).value.0)
  {
    var j := DigitsFrom(s, i);
    assert forall k :: 0 <= k < j - i ==> s[i..j][k] == s[i + k];
  }

  lemma PartSound(s: string, i: nat, w: string)
    requires i <= |s| && Part(s, i, w).Some?
    ensures var (n, c, j) := Part(s, i, w).value;
            i + |w| <= j <= |s| && s[i..i + |w|] == w && Side(s[i + |w|..j], n, c)
  {
    SideSound(s, i + |w|);
  }

  lemma SideSound(s: string, a: nat)
    requires a <= |s| && NumberAt(s, a).Some?
    ensures var n, m := NumberAt(s, a).value.0, NumberAt(s, a).value.1;
            Side(s[a..CountAt(s, m).1], n, CountAt(s, m).0)
  {
    NumberSound(s, a);
    var n, m := NumberAt(s, a).value.0, NumberAt(s, a).value.1;
    if Past(s, m, ",").Some? && NumberAt(s, m + 1).Some? {
      NumberSound(s, m + 1);
      CountedSound(s, a, m, CountAt(s, m).1, n, CountAt(s, m).0);
    }
  }

  lemma CountedSound(s: string, a: nat, m: nat, j: nat, n: nat, c: nat)
    requires a <= m < j <= |s| && One(s[a..m], n) && s[m..m + 1] == "," && One(s[m + 1..j], c)
    ensures Side(s[a..j], n, c)
  {
    assert s[m..j] == s[m..m + 1] + s[m + 1..j];
    assert s[a..j] == s[a..m] + ("," + s[m + 1..j]);
  }

  lemma HeadSound(line: string)
    requires HunkHeader(line).Some?
    ensures var h := HunkHeader(line).value; Head(line, h.on, h.ns, h.nn)
  {
    var (os, on, i) := Part(line, 0, "@@ -").value;
    PartSound(line, 0, "@@ -");
    var (ns, nn, j) := Part(line, i, " +").value;
    PartSound(line, i, " +");
    Spell(line, i, j);
    HeadIs(line, line[4..i], line[i + 2..j], line[j + 3..], os, on, ns, nn);
  }

  lemma HeadIs(line: string, a: string, b: string, rest: string, os: nat, on: nat, ns: nat, nn: nat)
    requires HeadText(line, a, b, rest) && Side(a, os, on) && Side(b, ns, nn)
    ensures Head(line, on, ns, nn)
  {
  }

  lemma Spell(line: string, i: nat, j: nat)
    requires 4 <= i && i + 2 <= j && j + 3 <= |line|
    requires line[0..4] == "@@ -" && line[i..i + 2] == " +" && line[j..j + 3] == " @@"
    ensures HeadText(line, line[4..i], line[i + 2..j], line[j + 3..])
  {
    assert line[j..] == " @@" + line[j + 3..];
    assert line[i..] == " +" + line[i + 2..j] + line[j..];
    assert line == "@@ -" + line[4..i] + line[i..];
  }

  lemma HeadReads(line: string, a: string, b: string, rest: string, os: nat, on: nat, ns: nat, nn: nat)
    requires HeadText(line, a, b, rest) && Side(a, os, on) && Side(b, ns, nn)
    ensures HunkHeader(line) == Some(Counts(on, ns, nn))
  {
    var p, q, t := "@@ -" + a, " +" + b, " @@" + rest;
    SideReads([], "@@ -", a, os, on, q + t);
    assert [] + "@@ -" == "@@ -";
    assert line == p + (q + t);
    SideReads(p, " +", b, ns, nn, t);
    Assoc(p, " +", b);
    HeaderStages(p, q, rest, os, on, ns, nn);
    Assoc(p + q, " @@", rest);
    Assoc(p, q, t);
  }

  /** A line is a hunk header exactly when it spells one, and its counts are those
      spelled. */
  lemma HeadExact(line: string, on: nat, ns: nat, nn: nat)
    ensures HunkHeader(line) == Some(Counts(on, ns, nn)) <==> Head(line, on, ns, nn)
  {
    if Head(line, on, ns, nn) {
      var os: nat, a, b, rest :| HeadText(line, a, b, rest) && Side(a, os, on) && Side(b, ns, nn);
      HeadReads(line, a, b, rest, os, on, ns, nn);
    }
    if HunkHeader(line).Some? { HeadSound(line); }
  }

  // ------------------------------------------------------------------------- a step

  ghost predicate TabsOnly(t: string) { forall i :: 0 <= i < |t| ==> t[i] == '\t' }

  /** `+++ b/`, a path that does not end in a tab, and any tabs. */
  ghost predicate Names(line: string, path: string) {
    (path == [] || path[|path| - 1] != '\t') && exists tabs :: TabsOnly(tabs) && line == "+++ b/" + path + tabs
  }

  lemma {:induction false} TabsSplit(s: string) returns (tabs: string)
    ensures TabsOnly(tabs) && s == RStripTabs(s) + tabs
    ensures RStripTabs(s) == [] || RStripTabs(s)[|RStripTabs(s)| - 1] != '\t'
    decreases |s|
  {
    tabs := [];
    if s != [] && s[|s| - 1] == '\t' {
      var p := s[..|s| - 1];
      var t := TabsSplit(p);
      tabs := t + ['\t'];
      assert s == p + ['\t'];
      Assoc(RStripTabs(s), t, ['\t']);
    }
  }

  lemma {:induction false} TabsGo(p: string, tabs: string)
    requires TabsOnly(tabs) && (p == [] || p[|p| - 1] != '\t')
    ensures RStripTabs(p + tabs) == p
    decreases |tabs|
  {
    if tabs == [] {
      assert p + tabs == p;
    } else {
      assert (p + tabs)[..|p + tabs| - 1] == p + tabs[..|tabs| - 1];
      TabsGo(p, tabs[..|tabs| - 1]);
    }
  }

  lemma NamesExact(line: string, path: string)
    ensures Names(line, path) <==> StartsWith(line, NEW_SIDE) && RStripTabs(line[6..]) == path
  {
    if Names(line, path) {
      var tabs :| TabsOnly(tabs) && line == "+++ b/" + path + tabs;
      assert line[6..] == path + tabs && line[..6] == NEW_SIDE;
      TabsGo(path, tabs);
    }
    if StartsWith(line, NEW_SIDE) && RStripTabs(line[6..]) == path {
      var tabs := TabsSplit(line[6..]);
      assert line == "+++ b/" + path + tabs;
    }
  }

  ghost predicate Behind(line: string, front: string) { exists rest :: line == front + rest }

  lemma BehindIs(line: string, front: string)
    ensures StartsWith(line, front) <==> Behind(line, front)
  {
    if StartsWith(line, front) { assert line == front + line[|front|..]; }
  }

  /** The lines recorded for a path. */
  ghost function LinesOf(added: Added, path: string): set<nat> { if path in added then added[path] else {} }

  /** Inside a hunk a line is passed over, whatever it says. Outside, it does one of five
      things, told apart by its text: it names a file, names none, ends the reading, records
      the new lines of a hunk, or is passed over. */
  lemma StepExact(path: Option<string>, added: Added, line: string)
    ensures forall skip: nat :: Step(State(path, skip + 1, added), line) == State(path, skip, added)
    ensures forall p :: Names(line, p) ==> Step(State(path, 0, added), line) == State(Some(p), 0, added)
    ensures line == "+++ /dev/null" ==> Step(State(path, 0, added), line) == State(None, 0, added)
    ensures Step(State(path, 0, added), line) == Died
            <==> Behind(line, "+++ ") && line != "+++ /dev/null" && !Behind(line, "+++ b/")
    ensures !Behind(line, "+++ ") && (path.None? || path.value == [] || !exists on: nat, ns: nat, nn: nat :: Head(line, on, ns, nn))
            ==> Step(State(path, 0, added), line) == State(path, 0, added)
  {
    BehindIs(line, "+++ ");
    BehindIs(line, "+++ b/");
    forall p ensures Names(line, p) <==> StartsWith(line, NEW_SIDE) && RStripTabs(line[6..]) == p { NamesExact(line, p); }
    if StartsWith(line, NEW_SIDE) { assert line[..4] == line[..6][..4]; }
    assert NO_FILE[..4] == HEADER && NO_FILE[4] == '/';
    if HunkHeader(line).Some? { HeadSound(line); }
  }

  /** A hunk header under a path adds exactly its new lines to that path, leaves the other
      paths alone, and has the lines counted passed over. */
  lemma HunkStep(path: string, added: Added, line: string, on: nat, ns: nat, nn: nat)
    requires path != [] && Head(line, on, ns, nn)
    ensures var after := Step(State(Some(path), 0, added), line);
            && after.State? && after.path == Some(path) && after.skip == on + nn
            && (forall i: nat :: i in LinesOf(after.added, path) <==> i in LinesOf(added, path) || ns <= i < ns + nn)
            && (forall p :: p != path ==> (p in after.added <==> p in added) && LinesOf(after.added, p) == LinesOf(added, p))
  {
    HeadExact(line, on, ns, nn);
    var os: nat, a, b, rest :| HeadText(line, a, b, rest) && Side(a, os, on) && Side(b, ns, nn);
    assert line[0] == '@';
  }
}
