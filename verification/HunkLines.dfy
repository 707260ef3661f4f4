/** The reader of `git diff --unified=0` output: new-side line numbers per path, with
    a hunk's content skipped by count. */
module HunkLines {
  import opened PyText

  predicate StartsWith(s: string, p: string) { |p| <= |s| && s[..|p|] == p }

  function DigitsFrom(s: string, i: nat): (j: nat)
    requires i <= |s|
    ensures i <= j <= |s| && forall k :: i <= k < j ==> IsDigit(s[k])
    ensures j < |s| ==> !IsDigit(s[j])
    decreases |s| - i
  {
    if i < |s| && IsDigit(s[i]) then DigitsFrom(s, i + 1) else i
  }

  /** Past `word` at index `i`, if it stands there. */
  function Past(s: string, i: nat, word: string): (j: Option<nat>)
    requires i <= |s|
    ensures j.Some? ==> j.value == i + |word| <= |s|
  {
    if i + |word| <= |s| && s[i..i + |word|] == word then Some(i + |word|) else None
  }

  /** `\d+` at index `i`: its value and its end. */
  function NumberAt(s: string, i: nat): (r: Option<(nat, nat)>)
    requires i <= |s|
    ensures r.Some? ==> i < r.value.1 <= |s|
  {
    var j := DigitsFrom(s, i);
    if j == i then None
    else
      assert forall k :: 0 <= k < j - i ==> s[i..j][k] == s[i + k];
      Some((ToInt(s[i..j]), j))
  }

  /** `(?:,(\d+))?` at index `i`: the count, 1 when absent, and its end. */
  function CountAt(s: string, i: nat): (r: (nat, nat))
    requires i <= |s|
    ensures i <= r.1 <= |s|
  {
    if Past(s, i, ",").Some? && NumberAt(s, i + 1).Some? then NumberAt(s, i + 1).value else (1, i)
  }

  datatype Counts = Counts(on: nat, ns: nat, nn: nat)

  /** `word`, then `\d+`, then `(?:,\d+)?` at index `i`: number, count and end. */
  function Part(line: string, i: nat, word: string): (r: Option<(nat, nat, nat)>)
    requires i <= |line|
    ensures r.Some? ==> r.value.2 <= |line|
  {
    var a := Past(line, i, word);
    if a.None? then None
    else
      var n := NumberAt(line, a.value);
      if n.None? then None
      else
        var c := CountAt(line, n.value.1);
        Some((n.value.0, c.0, c.1))
  }

  /** `@@ -\d+(?:,on)? \+ns(?:,nn)? @@` at the head of the line. */
  function HunkHeader(line: string): Option<Counts> {
    var o := Part(line, 0, "@@ -");
    if o.None? then None
    else
      var n := Part(line, o.value.2, " +");
      if n.None? || Past(line, n.value.2, " @@").None? then None
      else Some(Counts(o.value.1, n.value.0, n.value.1))
  }

  // ------------------------------------------------------------------ the reader

  type Added = map<string, set<nat>>

  datatype State = State(path: Option<string>, skip: nat, added: Added) | Died

  const HEADER := "+++ "
  const NEW_SIDE := "+++ b/"
  const NO_FILE := "+++ /dev/null"

  function RStripTabs(s: string): string {
    if s != [] && s[|s| - 1] == '\t' then RStripTabs(s[..|s| - 1]) else s
  }

  function Range(start: nat, count: nat): (r: set<nat>)
    ensures forall i: nat :: i in r <==> start <= i < start + count
  {
    if count == 0 then {} else Range(start, count - 1) + {start + count - 1}
  }

  function Record(added: Added, path: string, lines: set<nat>): Added {
    added[path := (if path in added then added[path] else {}) + lines]
  }

  function Step(st: State, line: string): State {
    if st.Died? then st
    else if st.skip > 0 then st.(skip := st.skip - 1)
    else if StartsWith(line, HEADER) then
      if StartsWith(line, NEW_SIDE) then st.(path := Some(RStripTabs(line[6..])))
      else if line == NO_FILE then st.(path := None)
      else Died
    else
      var h := HunkHeader(line);
      if h.Some? && st.path.Some? && st.path.value != [] then
        st.(added := Record(st.added, st.path.value, Range(h.value.ns, h.value.nn)), skip := h.value.on + h.value.nn)
      else st
  }

  function Run(st: State, lines: seq<string>): State
    decreases lines
  {
    if lines == [] then st else Run(Step(st, lines[0]), lines[1..])
  }

  const START := State(None, 0, map[])

  function Outcome(st: State): Option<Added> { if st.Died? then None else Some(st.added) }

  /** The source's loop; `None` is the refusal of an unreadable path. */
  method ReadDiff(diff: string) returns (r: Option<Added>)
    ensures r == Outcome(Run(START, SplitOn(diff, '\n')))
  {
    var lines := SplitOn(diff, '\n');
    var added: Added, path: Option<string>, skip: nat := map[], None, 0;
    for i := 0 to |lines|
      invariant Run(State(path, skip, added), lines[i..]) == Run(START, lines)
    {
      assert lines[i..][0] == lines[i] && lines[i..][1..] == lines[i + 1..];
      var ok;
      ok, path, skip, added := ReadLine(path, skip, added, lines[i]);
      if !ok {
        StaysDead(lines[i + 1..]);
        return None;
      }
    }
    assert lines[|lines|..] == [];
    r := Some(added);
  }

  method ReadLine(path0: Option<string>, skip0: nat, added0: Added, line: string) returns (ok: bool, path: Option<string>, skip: nat, added: Added)
    ensures Step(State(path0, skip0, added0), line) == if ok then State(path, skip, added) else Died
  {
    ok, path, skip, added := true, path0, skip0, added0;
    if skip > 0 {
      skip := skip - 1;
      return;
    }
    if StartsWith(line, HEADER) {
      if StartsWith(line, NEW_SIDE) {
        path := Some(RStripTabs(line[6..]));
      } else if line == NO_FILE {
        path := None;
      } else {
        ok := false;
      }
      return;
    }
    var h := HunkHeader(line);
    if h.Some? && path.Some? && path.value != [] {
      added := Record(added, path.value, Range(h.value.ns, h.value.nn));
      skip := h.value.on + h.value.nn;
    }
  }

  lemma {:induction false} StaysDead(lines: seq<string>)
    ensures Run(Died, lines) == Died
    decreases lines
  {
    if lines != [] { StaysDead(lines[1..]); }
  }

  lemma {:induction false} RunAppend(st: State, a: seq<string>, b: seq<string>)
    ensures Run(st, a + b) == Run(Run(st, a), b)
    decreases a
  {
    if a == [] {
      assert a + b == b;
    } else {
      assert (a + b)[0] == a[0] && (a + b)[1..] == a[1..] + b;
      RunAppend(Step(st, a[0]), a[1..], b);
    }
  }

  // ----------------------------------------------------------------- the printer

  /** A zero-context hunk: its numbers, the text after its header, its removed and
      added lines, and whether each side ends without a newline. */
  datatype Hunk = Hunk(oldStart: nat, newStart: nat, shortOld: bool, shortNew: bool, section: string,
                       removed: seq<string>, removedOpen: bool, added: seq<string>, addedOpen: bool)

  /** One file's diff: the lines before its `+++` header, its new path (none for a
      deletion), its hunks. */
  datatype FileDiff = FileDiff(preamble: seq<string>, path: Option<string>, tab: bool, hunks: seq<Hunk>)

  const MARKER := "\\ No newline at end of file"

  function Count(n: nat, short: bool): string { if short && n == 1 then [] else "," + ToStr(n) }

  function OldText(h: Hunk): string { "@@ -" + ToStr(h.oldStart) + Count(|h.removed|, h.shortOld) }

  function NewText(h: Hunk): string { " +" + ToStr(h.newStart) + Count(|h.added|, h.shortNew) }

  function HeaderLine(h: Hunk): string { OldText(h) + NewText(h) + " @@" + h.section }

  function Signed(sign: char, lines: seq<string>): (out: seq<string>)
    ensures |out| == |lines| && forall i :: 0 <= i < |lines| ==> out[i] == [sign] + lines[i]
  {
    if lines == [] then [] else [[sign] + lines[0]] + Signed(sign, lines[1..])
  }

  function Ending(open: bool): seq<string> { if open then [MARKER] else [] }

  function Content(h: Hunk): seq<string> {
    Signed('-', h.removed) + Ending(h.removedOpen) + Signed('+', h.added) + Ending(h.addedOpen)
  }

  function HunkText(h: Hunk): seq<string> {
    [HeaderLine(h)] + Content(h)
  }

  function HunkTexts(hs: seq<Hunk>): seq<string> {
    if hs == [] then [] else HunkText(hs[0]) + HunkTexts(hs[1..])
  }

  function PathLine(f: FileDiff): string {
    if f.path.Some? then NEW_SIDE + f.path.value + (if f.tab then "\t" else "") else NO_FILE
  }

  function FileText(f: FileDiff): seq<string> { f.preamble + [PathLine(f)] + HunkTexts(f.hunks) }

  function DiffText(fs: seq<FileDiff>): seq<string> {
    if fs == [] then [] else FileText(fs[0]) + DiffText(fs[1..])
  }

  /** What the diff means: each hunk's new-side lines, under its file's path. */
  function HunksMean(added: Added, path: string, hs: seq<Hunk>): Added
    decreases hs
  {
    if hs == [] then added
    else HunksMean(Record(added, path, Range(hs[0].newStart, |hs[0].added|)), path, hs[1..])
  }

  function DiffMeans(added: Added, fs: seq<FileDiff>): Added
    decreases fs
  {
    if fs == [] then added
    else DiffMeans(if fs[0].path.Some? then HunksMean(added, fs[0].path.value, fs[0].hunks) else added, fs[1..])
  }

  /** A line the reader passes over. */
  ghost predicate Inert(line: string) { !StartsWith(line, HEADER) && HunkHeader(line).None? }

  /** A no-newline marker falls between the hunk's content lines, and its last added
      line, which the count then no longer covers, reads as a file header. */
  predicate Misleading(h: Hunk) {
    h.removedOpen && h.added != [] && StartsWith(h.added[|h.added| - 1], "++ ")
  }

  function LastLine(h: Hunk): string
    requires h.added != []
  {
    h.added[|h.added| - 1]
  }

  /** After the hunk the reader still stands under `path`. */
  predicate Keeps(path: string, h: Hunk) {
    Misleading(h) ==> StartsWith(LastLine(h), "++ b/") && RStripTabs(LastLine(h)[5..]) == path
  }

  /** The hunk does not end the reading altogether. */
  predicate Readable(h: Hunk) {
    Misleading(h) ==> StartsWith(LastLine(h), "++ b/") || LastLine(h) == "++ /dev/null"
  }

  /** Every hunk but the last keeps the path; the last, after which a file header comes,
      need only be readable. */
  ghost predicate Straight(path: string, hs: seq<Hunk>) {
    forall i :: 0 <= i < |hs| ==> if i + 1 < |hs| then Keeps(path, hs[i]) else Readable(hs[i])
  }

  ghost predicate GoodFile(f: FileDiff) {
    && (forall l :: l in f.preamble ==> Inert(l))
    && (f.path.Some? ==> f.path.value != [] && f.path.value[|f.path.value| - 1] != '\t')
    && (f.path.None? ==> forall h :: h in f.hunks ==> h.added == [])
    && (f.path.Some? ==> Straight(f.path.value, f.hunks))
  }

  // ------------------------------------------------------------- reading the printer

  lemma {:induction false} DigitsEnd(a: string, d: string, b: string, k: nat)
    requires k <= |d| && forall i :: 0 <= i < |d| ==> IsDigit(d[i])
    requires b == [] || !IsDigit(b[0])
    ensures DigitsFrom(a + d + b, |a| + k) == |a| + |d|
    decreases |d| - k
  {
    if k < |d| {
      assert (a + d + b)[|a| + k] == d[k];
      DigitsEnd(a, d, b, k + 1);
    } else if b != [] {
      assert (a + d + b)[|a| + k] == b[0];
    }
  }

  lemma NumberReads(a: string, n: nat, b: string)
    requires b == [] || !IsDigit(b[0])
    ensures NumberAt(a + ToStr(n) + b, |a|) == Some((n, |a + ToStr(n)|))
  {
    var s := a + ToStr(n) + b;
    DigitsEnd(a, ToStr(n), b, 0);
    assert s[|a|..|a| + |ToStr(n)|] == ToStr(n);
    ToIntToStr(n);
  }

  lemma PastReads(a: string, w: string, b: string)
    ensures Past(a + w + b, |a|, w) == Some(|a + w|)
  {
    assert (a + w + b)[|a|..|a| + |w|] == w;
  }

  lemma CountReads(a: string, n: nat, short: bool, b: string)
    requires b != [] && b[0] == ' '
    ensures CountAt(a + Count(n, short) + b, |a|) == (n, |a + Count(n, short)|)
  {
    var s := a + Count(n, short) + b;
    if short && n == 1 {
      assert s == a + b && s[|a|] == ' ';
      if |s| > |a| { assert s[|a|..|a| + 1] == " "; }
    } else {
      assert s == a + "," + (ToStr(n) + b);
      PastReads(a, ",", ToStr(n) + b);
      assert s == (a + ",") + ToStr(n) + b;
      NumberReads(a + ",", n, b);
    }
  }

  lemma PartStages(a: string, w: string, d: string, c: string, t: string, n: nat, m: nat)
    requires NumberAt(a + w + d + (c + t), |a + w|) == Some((n, |a + w + d|))
    requires CountAt(a + w + d + c + t, |a + w + d|) == (m, |a + w + d + c|)
    ensures Part(a + w + d + c + t, |a|, w) == Some((n, m, |a + w + d + c|))
  {
    PastReads(a, w, d + c + t);
    Assoc(a + w, d, c + t);
    Assoc(a + w + d, c, t);
  }

  lemma PartReads(a: string, w: string, n: nat, m: nat, short: bool, t: string)
    requires t != [] && t[0] == ' '
    ensures var front := a + w + ToStr(n) + Count(m, short);
            Part(front + t, |a|, w) == Some((n, m, |front|))
  {
    var d, c := ToStr(n), Count(m, short);
    assert !IsDigit((c + t)[0]);
    NumberReads(a + w, n, c + t);
    CountReads(a + w + d, m, short, t);
    PartStages(a, w, d, c, t, n, m);
  }

  lemma HeaderStages(p: string, q: string, section: string, os: nat, on: nat, ns: nat, nn: nat)
    requires Part(p + (q + (" @@" + section)), 0, "@@ -") == Some((os, on, |p|))
    requires Part(p + q + (" @@" + section), |p|, " +") == Some((ns, nn, |p + q|))
    ensures HunkHeader(p + q + " @@" + section) == Some(Counts(on, ns, nn))
  {
    Assoc(p + q, " @@", section);
    Assoc(p, q, " @@" + section);
    PastReads(p + q, " @@", section);
  }

  lemma OldReads(h: Hunk, t: string)
    requires t != [] && t[0] == ' '
    ensures Part(OldText(h) + t, 0, "@@ -") == Some((h.oldStart, |h.removed|, |OldText(h)|))
  {
    PartReads([], "@@ -", h.oldStart, |h.removed|, h.shortOld, t);
    assert [] + "@@ -" == "@@ -";
  }

  lemma NewReads(h: Hunk, p: string, t: string)
    requires t != [] && t[0] == ' '
    ensures Part(p + NewText(h) + t, |p|, " +") == Some((h.newStart, |h.added|, |p + NewText(h)|))
  {
    var d, c := ToStr(h.newStart), Count(|h.added|, h.shortNew);
    PartReads(p, " +", h.newStart, |h.added|, h.shortNew, t);
    Assoc(p, " +" + d, c);
    Assoc(p, " +", d);
  }

  lemma HeaderReads(h: Hunk)
    ensures HunkHeader(HeaderLine(h)) == Some(Counts(|h.removed|, h.newStart, |h.added|))
    ensures !StartsWith(HeaderLine(h), HEADER)
  {
    var p, q := OldText(h), NewText(h);
    assert q[0] == ' ' && HeaderLine(h)[0] == '@';
    OldReads(h, q + (" @@" + h.section));
    NewReads(h, p, " @@" + h.section);
    HeaderStages(p, q, h.section, h.oldStart, |h.removed|, h.newStart, |h.added|);
  }

  lemma HeaderStep(path: Option<string>, added: Added, h: Hunk)
    ensures Step(State(path, 0, added), HeaderLine(h))
         == if path.Some? && path.value != [] then
              State(path, |h.removed| + |h.added|, Record(added, path.value, Range(h.newStart, |h.added|)))
            else State(path, 0, added)
  {
    HeaderReads(h);
  }

  lemma {:induction false} RunSkip(st: State, lines: seq<string>)
    requires st.State? && st.skip >= |lines|
    ensures Run(st, lines) == st.(skip := st.skip - |lines|)
    decreases lines
  {
    if lines != [] { RunSkip(Step(st, lines[0]), lines[1..]); }
  }

  lemma {:induction false} RunInert(st: State, lines: seq<string>)
    requires st.State? && st.skip == 0 && forall l :: l in lines ==> Inert(l)
    ensures Run(st, lines) == st
    decreases lines
  {
    if lines != [] {
      assert Inert(lines[0]);
      RunInert(st, lines[1..]);
    }
  }

  lemma NotAHeader(line: string)
    requires line != [] && line[0] != '+' && line[0] != '@'
    ensures Inert(line)
  {
  }

  lemma MarkerInert()
    ensures Inert(MARKER)
  {
    NotAHeader(MARKER);
  }

  lemma RunCounted(st: State, counted: seq<string>, tail: seq<string>)
    requires st.State? && st.skip == |counted|
    ensures Run(st, counted + tail) == Run(st.(skip := 0), tail)
  {
    RunAppend(st, counted, tail);
    RunSkip(st, counted);
  }

  /** A hunk's content, read with its counts to skip: exactly its lines when no marker
      stands between them; one line short, its last added line, when one does. */
  lemma RunContent(st: State, h: Hunk)
    requires st.State? && st.skip == |h.removed| + |h.added|
    ensures Run(st, Content(h))
         == if h.removedOpen && h.added != [] then
              Run(Step(st.(skip := 0), "+" + h.added[|h.added| - 1]), Ending(h.addedOpen))
            else st.(skip := 0)
  {
    var minus, plus, tail := Signed('-', h.removed), Signed('+', h.added), Ending(h.addedOpen);
    MarkerInert();
    if !h.removedOpen {
      assert Content(h) == (minus + plus) + tail;
      RunCounted(st, minus + plus, tail);
      RunInert(st.(skip := 0), tail);
    } else if h.added == [] {
      assert Content(h) == minus + ([MARKER] + tail);
      RunCounted(st, minus, [MARKER] + tail);
      RunInert(st.(skip := 0), [MARKER] + tail);
    } else {
      RunMarked(st, minus, plus, tail);
      assert plus[|plus| - 1] == "+" + h.added[|h.added| - 1];
    }
  }

  lemma RunMarked(st: State, minus: seq<string>, plus: seq<string>, tail: seq<string>)
    requires st.State? && st.skip == |minus| + |plus| && plus != []
    ensures Run(st, minus + [MARKER] + plus + tail) == Run(Step(st.(skip := 0), plus[|plus| - 1]), tail)
  {
    var n := |plus| - 1;
    var head := minus + [MARKER] + plus[..n];
    assert minus + [MARKER] + plus + tail == head + ([plus[n]] + tail);
    RunCounted(st, head, [plus[n]] + tail);
    assert ([plus[n]] + tail)[1..] == tail;
  }

  /** One printed hunk under a readable path records its new-side lines; what follows
      is read under the same path unless the hunk is misleading, in which case its last
      added line is read as the file header it looks like. */
  lemma RunHunk(path: string, added: Added, h: Hunk)
    requires path != []
    ensures var done := State(Some(path), 0, Record(added, path, Range(h.newStart, |h.added|)));
            Run(State(Some(path), 0, added), HunkText(h))
            == if Misleading(h) then Run(Step(done, "+" + h.added[|h.added| - 1]), Ending(h.addedOpen)) else done
  {
    HeaderStep(Some(path), added, h);
    var done := State(Some(path), 0, Record(added, path, Range(h.newStart, |h.added|)));
    var inside := done.(skip := |h.removed| + |h.added|);
    assert HunkText(h)[0] == HeaderLine(h) && HunkText(h)[1..] == Content(h);
    RunContent(inside, h);
    if h.removedOpen && h.added != [] && !Misleading(h) { LastLineHarmless(done, h); }
  }

  lemma LastLineHarmless(done: State, h: Hunk)
    requires done.State? && done.skip == 0 && h.added != [] && !StartsWith(h.added[|h.added| - 1], "++ ")
    ensures Run(Step(done, "+" + h.added[|h.added| - 1]), Ending(h.addedOpen)) == done
  {
    PlusLineInert(h.added[|h.added| - 1]);
    MarkerInert();
    RunInert(done, Ending(h.addedOpen));
  }

  lemma PlusLineInert(l: string)
    requires !StartsWith(l, "++ ")
    ensures Inert("+" + l)
  {
    NotAHunkHeader("+" + l);
    if StartsWith("+" + l, HEADER) { TailOfHeader(l); }
  }

  lemma NotAHunkHeader(line: string)
    requires line != [] && line[0] != '@'
    ensures HunkHeader(line).None?
  {
  }

  lemma TailOfHeader(l: string)
    requires StartsWith("+" + l, HEADER)
    ensures StartsWith(l, "++ ")
  {
    var line := "+" + l;
    assert l[..3] == line[..4][1..] == HEADER[1..];
  }

  lemma PlusStarts(l: string, w: string)
    ensures StartsWith("+" + l, "+" + w) <==> StartsWith(l, w)
  {
    if StartsWith(l, w) { assert ("+" + l)[..|w| + 1] == "+" + l[..|w|]; }
    if StartsWith("+" + l, "+" + w) { assert l[..|w|] == ("+" + l)[..|w| + 1][1..] == ("+" + w)[1..]; }
  }

  /** Where the reader stands after a misleading hunk. */
  lemma MisledStep(done: State, h: Hunk)
    requires done.State? && done.skip == 0 && Misleading(h)
    ensures Run(Step(done, "+" + LastLine(h)), Ending(h.addedOpen))
         == if StartsWith(LastLine(h), "++ b/") then done.(path := Some(RStripTabs(LastLine(h)[5..])))
            else if LastLine(h) == "++ /dev/null" then done.(path := None) else Died
  {
    var l := LastLine(h);
    PlusStarts(l, "++ ");
    PlusStarts(l, "++ b/");
    assert "+" + "++ " == HEADER && "+" + "++ b/" == NEW_SIDE && "+" + "++ /dev/null" == NO_FILE;
    if StartsWith(l, "++ b/") { assert ("+" + l)[6..] == l[5..]; }
    assert "+" + l == NO_FILE <==> l == "++ /dev/null" by { assert l == ("+" + l)[1..]; }
    StaysDead(Ending(h.addedOpen));
    MarkerInert();
    var nx := Step(done, "+" + l);
    if nx.State? { RunInert(nx, Ending(h.addedOpen)); }
  }

  /** After one hunk the reader stands where it should if and only if the hunk keeps the
      path; it stands somewhere, with the hunk recorded, if and only if it is readable. */
  lemma HunkExact(path: string, added: Added, h: Hunk)
    requires path != []
    ensures var r, after := Run(State(Some(path), 0, added), HunkText(h)), Record(added, path, Range(h.newStart, |h.added|));
            && (r == State(Some(path), 0, after) <==> Keeps(path, h))
            && (r.State? <==> Readable(h)) && (r.State? ==> r.skip == 0 && r.added == after)
  {
    RunHunk(path, added, h);
    if Misleading(h) { MisledStep(State(Some(path), 0, Record(added, path, Range(h.newStart, |h.added|))), h); }
  }

  /** The hunks of a deleted file: nothing is skipped, and nothing is read either. */
  lemma RunDeleted(added: Added, h: Hunk)
    requires h.added == []
    ensures Run(State(None, 0, added), HunkText(h)) == State(None, 0, added)
  {
    var st := State(None, 0, added);
    HeaderStep(None, added, h);
    assert HunkText(h)[0] == HeaderLine(h) && HunkText(h)[1..] == Content(h);
    MarkerInert();
    forall l | l in Content(h) ensures Inert(l) {
      if l in Signed('-', h.removed) {
        var i :| 0 <= i < |h.removed| && Signed('-', h.removed)[i] == l;
        assert l[0] == '-';
        NotAHeader(l);
      }
    }
    RunInert(st, Content(h));
  }

  lemma {:induction false} RunHunks(path: string, added: Added, hs: seq<Hunk>)
    requires path != [] && Straight(path, hs)
    ensures var r := Run(State(Some(path), 0, added), HunkTexts(hs));
            r.State? && r.skip == 0 && r.added == HunksMean(added, path, hs)
    decreases hs
  {
    if hs != [] {
      HunkExact(path, added, hs[0]);
      RunAppend(State(Some(path), 0, added), HunkText(hs[0]), HunkTexts(hs[1..]));
      if |hs| > 1 {
        StraightRest(path, hs);
        RunHunks(path, Record(added, path, Range(hs[0].newStart, |hs[0].added|)), hs[1..]);
      }
    }
  }

  lemma StraightRest(path: string, hs: seq<Hunk>)
    requires |hs| > 1
    ensures Straight(path, hs) <==> Keeps(path, hs[0]) && Straight(path, hs[1..])
  {
    if Keeps(path, hs[0]) && Straight(path, hs[1..]) {
      forall i | 0 <= i < |hs| ensures if i + 1 < |hs| then Keeps(path, hs[i]) else Readable(hs[i]) {
        if i > 0 { assert hs[i] == hs[1..][i - 1]; }
      }
    }
  }

  lemma {:induction false} RunDeletedHunks(added: Added, hs: seq<Hunk>)
    requires forall h :: h in hs ==> h.added == []
    ensures Run(State(None, 0, added), HunkTexts(hs)) == State(None, 0, added)
    decreases hs
  {
    if hs != [] {
      assert hs[0] in hs;
      RunDeleted(added, hs[0]);
      RunAppend(State(None, 0, added), HunkText(hs[0]), HunkTexts(hs[1..]));
      RunDeletedHunks(added, hs[1..]);
    }
  }

  lemma PathReads(path: string, tab: bool)
    requires path != [] && path[|path| - 1] != '\t'
    ensures var line := NEW_SIDE + path + (if tab then "\t" else "");
            StartsWith(line, HEADER) && StartsWith(line, NEW_SIDE) && RStripTabs(line[6..]) == path
  {
    var line := NEW_SIDE + path + (if tab then "\t" else "");
    assert line[..6] == NEW_SIDE && line[..4] == NEW_SIDE[..4] == HEADER;
    if tab {
      assert line[6..] == path + "\t" && (path + "\t")[..|path|] == path;
    } else {
      assert line[6..] == path;
    }
  }

  lemma RunFile(path: Option<string>, added: Added, f: FileDiff)
    requires GoodFile(f)
    ensures var r := Run(State(path, 0, added), FileText(f));
            r.State? && r.skip == 0 && r.added == if f.path.Some? then HunksMean(added, f.path.value, f.hunks) else added
  {
    var st := State(path, 0, added);
    RunInert(st, f.preamble);
    RunAppend(st, f.preamble, [PathLine(f)]);
    RunAppend(st, f.preamble + [PathLine(f)], HunkTexts(f.hunks));
    assert [PathLine(f)][1..] == [];
    if f.path.Some? {
      PathReads(f.path.value, f.tab);
      RunHunks(f.path.value, added, f.hunks);
    } else {
      assert NO_FILE[..4] == HEADER && NO_FILE[4] != NEW_SIDE[4];
      assert NO_FILE[..6] != NEW_SIDE by { assert NO_FILE[..6][4] != NEW_SIDE[4]; }
      RunDeletedHunks(added, f.hunks);
    }
  }

  /** The reader inverts the printer: any list of files with zero-context hunks reads
      back as exactly the new-side line numbers of each path, whatever the content looks
      like, as long as no hunk with another one below it leads to another path. */
  lemma {:induction false} ReadsPrinted(fs: seq<FileDiff>, path: Option<string>, added: Added)
    requires forall f :: f in fs ==> GoodFile(f)
    ensures Outcome(Run(State(path, 0, added), DiffText(fs))) == Some(DiffMeans(added, fs))
    decreases fs
  {
    if fs != [] {
      assert fs[0] in fs;
      RunFile(path, added, fs[0]);
      RunAppend(State(path, 0, added), FileText(fs[0]), DiffText(fs[1..]));
      var r := Run(State(path, 0, added), FileText(fs[0]));
      ReadsPrinted(fs[1..], r.path, r.added);
    }
  }

  /** The same on the text: the printed lines, joined, with the final line break git ends with. */
  lemma ReadsPrintedText(fs: seq<FileDiff>)
    requires (forall f :: f in fs ==> GoodFile(f)) && Free(DiffText(fs), '\n')
    ensures Outcome(Run(START, SplitOn(Join(DiffText(fs) + [""], '\n'), '\n'))) == Some(DiffMeans(map[], fs))
  {
    var lines := DiffText(fs) + [""];
    assert Free(lines, '\n');
    SplitJoin(lines, '\n');
    ReadsPrinted(fs, None, map[]);
    RunAppend(START, DiffText(fs), [""]);
    EmptyLineHarmless(Run(START, DiffText(fs)));
  }

  lemma EmptyLineHarmless(st: State)
    ensures Outcome(Run(st, [""])) == Outcome(st)
  {
    assert [""][1..] == [];
    assert Past("", 0, "@@ -") == None;
  }

  /** A header-like line under an open hunk count of zero changes the path. */
  lemma HeaderLikeStep(st: State, other: string)
    requires st.State? && st.skip == 0 && other != [] && other[|other| - 1] != '\t'
    ensures Step(st, "+" + ("++ b/" + other)) == st.(path := Some(other))
  {
    assert "+" + ("++ b/" + other) == NEW_SIDE + other + "";
    PathReads(other, false);
  }
}
