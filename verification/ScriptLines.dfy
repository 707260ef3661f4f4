/** The line scanner of the bootstrap-script gate: which lines are source comments once
    bash heredoc and PowerShell here-string bodies are told apart from code. */
module ScriptLines {
  import opened PyText

  // ------------------------------------------------------------- the two openers

  predicate IsQuote(c: char) { c == '\'' || c == '"' }

  function WordLen(s: string): (n: nat)
    ensures n <= |s| && (forall i :: 0 <= i < n ==> IsWord(s[i])) && (n < |s| ==> !IsWord(s[n]))
  {
    if s != [] && IsWord(s[0]) then 1 + WordLen(s[1..]) else 0
  }

  /** The heredoc opener read at the front of `s`: whether tabs are stripped, and the
      terminator word. */
  function DocAt(s: string): Option<(bool, string)> {
    if |s| < 2 || s[0] != '<' || s[1] != '<' then None
    else
      var tabs := |s| > 2 && s[2] == '-';
      AfterArrows(tabs, LStrip(if tabs then s[3..] else s[2..]))
  }

  /** What follows `<<`, `-` and blanks: a word, bare or within one pair of quotes. */
  function AfterArrows(tabs: bool, u: string): Option<(bool, string)> {
    var quoted := u != [] && IsQuote(u[0]);
    var v := if quoted then u[1..] else u;
    var n := WordLen(v);
    if n == 0 || (quoted && (n == |v| || v[n] != u[0])) then None else Some((tabs, v[..n]))
  }

  /** The leftmost heredoc opener of a line. */
  function FindDoc(s: string): Option<(bool, string)> {
    if DocAt(s).Some? then DocAt(s) else if s == [] then None else FindDoc(s[1..])
  }

  /** The opener's grammar, with the word as long as it can be. */
  ghost predicate Opener(s: string, tabs: bool, blanks: string, quote: string, word: string, rest: string) {
    && s == "<<" + ((if tabs then "-" else "") + (blanks + (quote + (word + (quote + rest)))))
    && AllSpace(blanks)
    && (quote == [] || (|quote| == 1 && IsQuote(quote[0])))
    && word != [] && (forall i :: 0 <= i < |word| ==> IsWord(word[i]))
    && (quote == [] && rest != [] ==> !IsWord(rest[0]))
  }

  lemma {:induction false} WordLenIs(v: string, word: string, rest: string)
    requires v == word + rest && (forall i :: 0 <= i < |word| ==> IsWord(word[i])) && (rest != [] ==> !IsWord(rest[0]))
    ensures WordLen(v) == |word| && v[..|word|] == word
  {
    if word == [] {
      assert v == rest;
    } else {
      assert v[1..] == word[1..] + rest && v[0] == word[0];
      WordLenIs(v[1..], word[1..], rest);
      assert v[..|word|] == [v[0]] + v[1..][..|word| - 1];
    }
  }

  lemma AfterArrowsReads(tabs: bool, quote: string, word: string, rest: string)
    requires quote == [] || (|quote| == 1 && IsQuote(quote[0]))
    requires word != [] && (forall i :: 0 <= i < |word| ==> IsWord(word[i]))
    requires quote == [] && rest != [] ==> !IsWord(rest[0])
    ensures AfterArrows(tabs, quote + (word + (quote + rest))) == Some((tabs, word))
  {
    var u := quote + (word + (quote + rest));
    var v := word + (quote + rest);
    WordLenIs(v, word, quote + rest);
    if quote == [] {
      assert u == v && u[0] == word[0];
    } else {
      assert u[0] == quote[0] && u[1..] == v;
      assert v[|word|] == quote[0];
    }
  }

  /** What the reader took from a run of text: a quote or none, the word, the rest. */
  ghost predicate WordIn(u: string, quote: string, word: string, rest: string) {
    && u == quote + (word + (quote + rest))
    && (quote == [] || (|quote| == 1 && IsQuote(quote[0])))
    && word != [] && (forall i :: 0 <= i < |word| ==> IsWord(word[i]))
    && (quote == [] && rest != [] ==> !IsWord(rest[0]))
  }

  lemma AfterArrowsSound(tabs: bool, u: string, word: string) returns (quote: string, rest: string)
    requires AfterArrows(tabs, u) == Some((tabs, word))
    ensures WordIn(u, quote, word, rest)
  {
    if IsQuote(u[0]) {
      rest := QuotedSound(u[0], u[1..], word);
      quote := [u[0]];
      assert u == quote + u[1..];
    } else {
      rest := u[|word|..];
      quote := "";
      BareSound(u, word, rest);
    }
  }

  lemma BareSound(u: string, word: string, rest: string)
    requires |word| == WordLen(u) && word == u[..|word|] && word != [] && rest == u[|word|..]
    ensures WordIn(u, "", word, rest)
  {
    assert u == word + rest;
    NoQuote(word, rest);
  }

  lemma NoQuote(word: string, rest: string)
    ensures "" + (word + ("" + rest)) == word + rest
  {
    assert "" + rest == rest;
  }

  lemma QuotedSound(q: char, v: string, word: string) returns (rest: string)
    requires WordLen(v) < |v| && v[..WordLen(v)] == word && v[WordLen(v)] == q
    ensures v == word + ([q] + rest)
  {
    var n := WordLen(v);
    rest := v[n + 1..];
    assert v[n..] == [q] + rest;
    assert v == v[..n] + v[n..];
  }

  /** The reader accepts exactly the opener's grammar, and reads its word. */
  lemma DocAtExact(s: string, tabs: bool, word: string)
    ensures DocAt(s) == Some((tabs, word)) <==> exists blanks, quote, rest :: Opener(s, tabs, blanks, quote, word, rest)
  {
    if exists blanks, quote, rest :: Opener(s, tabs, blanks, quote, word, rest) {
      var blanks, quote, rest :| Opener(s, tabs, blanks, quote, word, rest);
      DocAtReads(s, tabs, blanks, quote, word, rest);
    }
    if DocAt(s) == Some((tabs, word)) {
      DocAtSound(s, tabs, word);
    }
  }

  lemma DocAtSound(s: string, tabs: bool, word: string)
    requires DocAt(s) == Some((tabs, word))
    ensures exists blanks, quote, rest :: Opener(s, tabs, blanks, quote, word, rest)
  {
    var after := if tabs then s[3..] else s[2..];
    assert s == "<<" + ((if tabs then "-" else "") + after);
    BlanksSound(s, tabs, after, word);
  }

  lemma BlanksSound(s: string, tabs: bool, after: string, word: string)
    requires s == "<<" + ((if tabs then "-" else "") + after) && AfterArrows(tabs, LStrip(after)) == Some((tabs, word))
    ensures exists blanks, quote, rest :: Opener(s, tabs, blanks, quote, word, rest)
  {
    LStripSplits(after);
    var blanks :| AllSpace(blanks) && after == blanks + LStrip(after);
    var quote, rest := AfterArrowsSound(tabs, LStrip(after), word);
    assert Opener(s, tabs, blanks, quote, word, rest);
  }

  lemma DocAtReads(s: string, tabs: bool, blanks: string, quote: string, word: string, rest: string)
    requires Opener(s, tabs, blanks, quote, word, rest)
    ensures DocAt(s) == Some((tabs, word))
  {
    var u := quote + (word + (quote + rest));
    assert u[0] == if quote == [] then word[0] else quote[0];
    NotDash(u[0]);
    AfterArrowsReads(tabs, quote, word, rest);
    LStripOver(blanks, u);
    var tail := blanks + u;
    assert tail[0] == if blanks == [] then u[0] else blanks[0];
    NotDash(tail[0]);
    ArrowsRead(s, tabs, tail);
  }

  lemma ArrowsRead(s: string, tabs: bool, tail: string)
    requires s == "<<" + ((if tabs then "-" else "") + tail) && tail != [] && tail[0] != '-'
    ensures DocAt(s) == AfterArrows(tabs, LStrip(tail))
  {
    if tabs {
      assert s[2] == '-' && s[3..] == tail;
    } else {
      assert s[2] == tail[0] && s[2..] == tail;
    }
  }

  lemma NotDash(c: char)
    ensures IsWord(c) || IsQuote(c) ==> !IsSpace(c)
    ensures IsWord(c) || IsQuote(c) || IsSpace(c) ==> c != '-'
  {
  }

  /** Text before the opener that holds no `<` does not hide it. */
  lemma {:induction false} OpenerFound(before: string, s: string)
    requires '<' !in before && DocAt(s).Some?
    ensures FindDoc(before + s) == DocAt(s)
  {
    if before == [] {
      assert before + s == s;
    } else {
      assert (before + s)[0] == before[0] && (before + s)[1..] == before[1..] + s;
      OpenerFound(before[1..], s);
    }
  }

  // ------------------------------------------------------------------ the states

  datatype Mode = Code | Doc(word: string, tabs: bool) | Str(close: string)

  /** The state a code line leaves behind. */
  function Opens(line: string): Mode {
    if FindDoc(line).Some? then Doc(FindDoc(line).value.1, FindDoc(line).value.0)
    else
      var r := RStrip(line);
      if |r| >= 2 && r[|r| - 2] == '@' && IsQuote(r[|r| - 1]) then Str([r[|r| - 1], '@']) else Code
  }

  function TabStrip(line: string): string {
    if line != [] && line[0] == '\t' then TabStrip(line[1..]) else line
  }

  predicate Closes(m: Mode, line: string) {
    match m
    case Code => false
    case Doc(word, tabs) => (if tabs then TabStrip(line) else line) == word
    case Str(close) => close <= line
  }

  function Next(m: Mode, line: string): Mode {
    if m.Code? then Opens(line) else if Closes(m, line) then Code else m
  }

  predicate Hash(line: string) { var t := Strip(line); t != [] && t[0] == '#' }

  /** The state after a run of lines. */
  function After(m: Mode, lines: seq<string>): Mode
    decreases lines
  {
    if lines == [] then m else After(Next(m, lines[0]), lines[1..])
  }

  /** Each line, with whether it is skipped as a comment. */
  function Marks(m: Mode, lines: seq<string>): (out: seq<(string, bool)>)
    ensures |out| == |lines|
    decreases lines
  {
    if lines == [] then []
    else [(lines[0], m.Code? && Hash(lines[0]))] + Marks(Next(m, lines[0]), lines[1..])
  }

  lemma {:induction false} AfterAppend(m: Mode, a: seq<string>, b: seq<string>)
    ensures After(m, a + b) == After(After(m, a), b)
    decreases a
  {
    if a == [] {
      assert a + b == b;
    } else {
      assert (a + b)[0] == a[0] && (a + b)[1..] == a[1..] + b;
      AfterAppend(Next(m, a[0]), a[1..], b);
    }
  }

  lemma {:induction false} MarksAppend(m: Mode, a: seq<string>, b: seq<string>)
    ensures Marks(m, a + b) == Marks(m, a) + Marks(After(m, a), b)
    ensures After(m, a + b) == After(After(m, a), b)
    decreases |a|
  {
    AfterAppend(m, a, b);
    if a == [] {
      assert a + b == b;
    } else {
      var x, t := a[0], a[1..];
      assert a == [x] + t;
      MarksAppend(Next(m, x), t, b);
      MarksStep(m, x, t, b);
    }
  }

  lemma MarksStep(m: Mode, x: string, a: seq<string>, b: seq<string>)
    ensures var n, head := Next(m, x), [(x, m.Code? && Hash(x))];
            Marks(m, [x] + a) == head + Marks(n, a) && Marks(m, [x] + a + b) == head + Marks(n, a + b) && After(m, [x] + a) == After(n, a)
  {
    assert ([x] + a)[1..] == a;
    assert ([x] + a + b)[1..] == a + b;
  }

  lemma MarksSnoc(lines: seq<string>, i: nat)
    requires i < |lines|
    ensures var m := After(Code, lines[..i]);
            && After(Code, lines[..i + 1]) == Next(m, lines[i])
            && Marks(Code, lines[..i + 1]) == Marks(Code, lines[..i]) + [(lines[i], m.Code? && Hash(lines[i]))]
  {
    assert lines[..i + 1] == lines[..i] + [lines[i]];
    MarksAppend(Code, lines[..i], [lines[i]]);
  }

  method IterScannableLines(lines: seq<string>) returns (out: seq<(string, bool)>)
    ensures out == Marks(Code, lines)
  {
    out := [];
    var in_heredoc, in_herestring, strip_tabs := false, false, false;
    var terminator, close := "", "";
    ghost var m := Code;
    for i := 0 to |lines|
      invariant out == Marks(Code, lines[..i])
      invariant !(in_heredoc && in_herestring)
      invariant m == After(Code, lines[..i])
      invariant m == if in_heredoc then Doc(terminator, strip_tabs) else if in_herestring then Str(close) else Code
    {
      var line := lines[i];
      MarksSnoc(lines, i);
      m := Next(m, line);
      if in_heredoc {
        var body := if strip_tabs then TabStrip(line) else line;
        if body == terminator { in_heredoc := false; }
        out := out + [(line, false)];
      } else if in_herestring {
        if close <= line { in_herestring := false; }
        out := out + [(line, false)];
      } else {
        var doc := FindDoc(line);
        if doc.Some? {
          in_heredoc := true;
          strip_tabs, terminator := doc.value.0, doc.value.1;
        } else {
          var r := RStrip(line);
          if |r| >= 2 && r[|r| - 2] == '@' && IsQuote(r[|r| - 1]) {
            in_herestring := true;
            close := [r[|r| - 1], '@'];
          }
        }
        out := out + [(line, Hash(line))];
      }
    }
    assert lines[..|lines|] == lines;
  }

  /** Every line is yielded once, in order. */
  lemma {:induction false} LinesYielded(m: Mode, lines: seq<string>, i: nat)
    requires i < |lines|
    ensures Marks(m, lines)[i].0 == lines[i]
    decreases lines
  {
    if i > 0 { LinesYielded(Next(m, lines[0]), lines[1..], i - 1); }
  }

  /** A line is skipped exactly when it starts with `#` and the scanner stands in code
      before it: no body line and no closing line ever is. */
  lemma {:induction false} SkippedExact(m: Mode, lines: seq<string>, i: nat)
    requires i < |lines|
    ensures Marks(m, lines)[i].1 <==> After(m, lines[..i]).Code? && Hash(lines[i])
    decreases lines
  {
    if i > 0 {
      assert lines[..i][1..] == lines[1..][..i - 1];
      SkippedExact(Next(m, lines[0]), lines[1..], i - 1);
    }
  }

  // ---------------------------------------------------------------- segmentation

  /** A code line that opens nothing, or an opener with its body and closing line. */
  datatype Segment = Plain(line: string) | Block(open: string, body: seq<string>, close: string)

  ghost predicate Inside(m: Mode, body: seq<string>) { forall i :: 0 <= i < |body| ==> !Closes(m, body[i]) }

  ghost predicate Whole(g: Segment) {
    match g
    case Plain(line) => Opens(line).Code?
    case Block(open, body, close) => !Opens(open).Code? && Inside(Opens(open), body) && Closes(Opens(open), close)
  }

  ghost predicate AllWhole(gs: seq<Segment>) { forall i :: 0 <= i < |gs| ==> Whole(gs[i]) }

  /** A block still open at the end of the file, or nothing. */
  ghost predicate OpenEnd(tail: seq<string>) {
    tail == [] || (!Opens(tail[0]).Code? && Inside(Opens(tail[0]), tail[1..]))
  }

  function Lines(g: Segment): seq<string> {
    match g
    case Plain(line) => [line]
    case Block(open, body, close) => [open] + body + [close]
  }

  function Printed(gs: seq<Segment>): seq<string> { if gs == [] then [] else Lines(gs[0]) + Printed(gs[1..]) }

  /** Only a code line or an opener can be a comment. */
  function SegmentMarks(g: Segment): seq<(string, bool)> {
    match g
    case Plain(line) => [(line, Hash(line))]
    case Block(open, body, close) => [(open, Hash(open))] + Scanned(body) + [(close, false)]
  }

  function Scanned(body: seq<string>): (r: seq<(string, bool)>)
    ensures |r| == |body| && forall i :: 0 <= i < |body| ==> r[i] == (body[i], false)
  {
    if body == [] then [] else [(body[0], false)] + Scanned(body[1..])
  }

  function AllMarks(gs: seq<Segment>): seq<(string, bool)> { if gs == [] then [] else SegmentMarks(gs[0]) + AllMarks(gs[1..]) }

  lemma {:induction false} BodyStays(m: Mode, body: seq<string>)
    requires !m.Code? && Inside(m, body)
    ensures After(m, body) == m && Marks(m, body) == Scanned(body)
    decreases body
  {
    if body != [] {
      assert forall i :: 0 <= i < |body[1..]| ==> body[1..][i] == body[i + 1];
      BodyStays(m, body[1..]);
    }
  }

  lemma SegmentScan(g: Segment)
    requires Whole(g)
    ensures After(Code, Lines(g)) == Code && Marks(Code, Lines(g)) == SegmentMarks(g)
  {
    if g.Block? {
      var m := Opens(g.open);
      Assoc([g.open], g.body, [g.close]);
      MarksAppend(Code, [g.open], g.body + [g.close]);
      MarksAppend(m, g.body, [g.close]);
      BodyStays(m, g.body);
      OneLine(Code, g.open);
      OneLine(m, g.close);
      Assoc([(g.open, Hash(g.open))], Scanned(g.body), [(g.close, false)]);
    } else {
      OneLine(Code, g.line);
    }
  }

  lemma OneLine(m: Mode, line: string)
    ensures After(m, [line]) == Next(m, line) && Marks(m, [line]) == [(line, m.Code? && Hash(line))]
  {
    assert [line][1..] == [];
  }

  /** A script printed from segments is scanned segment by segment. */
  lemma {:induction false} PrintedScan(gs: seq<Segment>)
    requires AllWhole(gs)
    ensures After(Code, Printed(gs)) == Code && Marks(Code, Printed(gs)) == AllMarks(gs)
  {
    if gs != [] {
      PrintedScan(gs[1..]);
      SegmentScan(gs[0]);
      MarksAppend(Code, Lines(gs[0]), Printed(gs[1..]));
    }
  }

  /** The segmentation the scanner's states induce: complete segments and an open end.
      `held` is the block being read. */
  function Cut(m: Mode, held: seq<string>, lines: seq<string>): (seq<Segment>, seq<string>)
    requires !m.Code? ==> held != []
    decreases lines
  {
    if lines == [] then ([], held)
    else
      var n := Next(m, lines[0]);
      if n.Code? then
        var (gs, tail) := Cut(Code, [], lines[1..]);
        ([Finished(m, held, lines[0])] + gs, tail)
      else if m.Code? then Cut(n, [lines[0]], lines[1..])
      else Cut(n, held + [lines[0]], lines[1..])
  }

  /** What is being held while the scanner is in state `m`. */
  ghost predicate Holding(m: Mode, held: seq<string>) {
    if m.Code? then held == [] else held != [] && Opens(held[0]) == m && Inside(m, held[1..])
  }

  lemma HoldingGrows(m: Mode, held: seq<string>, line: string)
    requires !m.Code? && Holding(m, held) && !Closes(m, line)
    ensures Holding(m, held + [line])
  {
    assert (held + [line])[1..] == held[1..] + [line];
  }

  /** Every script is the print of its segmentation. */
  lemma {:induction false} CutPrints(m: Mode, held: seq<string>, lines: seq<string>)
    requires Holding(m, held)
    ensures AllWhole(Cut(m, held, lines).0) && OpenEnd(Cut(m, held, lines).1)
    ensures Printed(Cut(m, held, lines).0) + Cut(m, held, lines).1 == held + lines
    decreases lines
  {
    if lines != [] {
      var line, rest := lines[0], lines[1..];
      assert lines == [line] + rest;
      CutOne(m, held, line, rest);
      if Next(m, line).Code? {
        CutPrints(Code, [], rest);
        Completed(m, held, line, Cut(Code, [], rest).0, Cut(Code, [], rest).1, rest);
      } else {
        Resumed(m, held, line, rest);
        CutPrints(Next(m, line), if m.Code? then [line] else held + [line], rest);
      }
    }
  }

  lemma CutOne(m: Mode, held: seq<string>, line: string, rest: seq<string>)
    requires Holding(m, held)
    ensures var n := Next(m, line);
            Cut(m, held, [line] + rest) ==
            if n.Code? then ([Finished(m, held, line)] + Cut(Code, [], rest).0, Cut(Code, [], rest).1)
            else Cut(n, if m.Code? then [line] else held + [line], rest)
  {
    assert ([line] + rest)[1..] == rest;
  }

  lemma Resumed(m: Mode, held: seq<string>, line: string, rest: seq<string>)
    requires Holding(m, held) && !Next(m, line).Code?
    ensures var more := if m.Code? then [line] else held + [line];
            Holding(Next(m, line), more) && more + rest == held + ([line] + rest)
  {
    if !m.Code? { HoldingGrows(m, held, line); }
  }

  /** The segment that a line completes. */
  function Finished(m: Mode, held: seq<string>, line: string): Segment
    requires !m.Code? ==> held != []
  {
    if m.Code? then Plain(line) else Block(held[0], held[1..], line)
  }

  lemma Completed(m: Mode, held: seq<string>, line: string, gs: seq<Segment>, tail: seq<string>, rest: seq<string>)
    requires Holding(m, held) && Next(m, line).Code? && AllWhole(gs) && Printed(gs) + tail == rest
    ensures var all := [Finished(m, held, line)] + gs; AllWhole(all) && Printed(all) + tail == held + ([line] + rest)
  {
    var g := Finished(m, held, line);
    FinishedLines(m, held, line);
    PrintedHead(g, gs, tail);
    Assoc(held, [line], rest);
  }

  lemma FinishedLines(m: Mode, held: seq<string>, line: string)
    requires Holding(m, held) && Next(m, line).Code?
    ensures Whole(Finished(m, held, line)) && Lines(Finished(m, held, line)) == held + [line]
  {
    if !m.Code? { assert held == [held[0]] + held[1..]; }
  }

  lemma PrintedHead(g: Segment, gs: seq<Segment>, tail: seq<string>)
    ensures Printed([g] + gs) + tail == Lines(g) + (Printed(gs) + tail)
    ensures Whole(g) && AllWhole(gs) ==> AllWhole([g] + gs)
  {
    assert ([g] + gs)[1..] == gs;
  }

  lemma {:induction false} CutBody(m: Mode, held: seq<string>, body: seq<string>, more: seq<string>)
    requires !m.Code? && held != [] && Inside(m, body)
    ensures Cut(m, held, body + more) == Cut(m, held + body, more)
    decreases body
  {
    if body == [] {
      assert body + more == more && held + body == held;
    } else {
      assert (body + more)[0] == body[0] && (body + more)[1..] == body[1..] + more;
      assert forall i :: 0 <= i < |body[1..]| ==> body[1..][i] == body[i + 1];
      CutBody(m, held + [body[0]], body[1..], more);
      assert held + [body[0]] + body[1..] == held + body;
    }
  }

  lemma CutSegment(g: Segment, more: seq<string>)
    requires Whole(g)
    ensures Cut(Code, [], Lines(g) + more) == ([g] + Cut(Code, [], more).0, Cut(Code, [], more).1)
  {
    match g
    case Plain(line) =>
      assert ([line] + more)[1..] == more;
    case Block(open, body, close) =>
      var m := Opens(open);
      var low := body + ([close] + more);
      assert Lines(g) + more == [open] + low;
      assert ([open] + low)[1..] == low;
      CutBody(m, [open], body, [close] + more);
      assert ([close] + more)[1..] == more;
      assert ([open] + body)[1..] == body;
  }

  /** The scanner's states recover the segmentation a script was printed from. */
  lemma {:induction false} CutRecovers(gs: seq<Segment>, tail: seq<string>)
    requires AllWhole(gs) && OpenEnd(tail)
    ensures Cut(Code, [], Printed(gs) + tail) == (gs, tail)
  {
    if gs == [] {
      assert Printed(gs) + tail == tail;
      CutOpenEnd(tail);
    } else {
      CutRecovers(gs[1..], tail);
      Assoc(Lines(gs[0]), Printed(gs[1..]), tail);
      CutSegment(gs[0], Printed(gs[1..]) + tail);
      assert gs == [gs[0]] + gs[1..];
    }
  }

  lemma CutOpenEnd(tail: seq<string>)
    requires OpenEnd(tail)
    ensures Cut(Code, [], tail) == ([], tail)
  {
    if tail != [] {
      var m, rest := Opens(tail[0]), tail[1..];
      assert [tail[0]] + rest == tail;
      CutBody(m, [tail[0]], rest, []);
      assert rest + [] == rest;
    }
  }

  // ----------------------------------------------------------------- terminators

  lemma {:induction false} TabsStripped(tabs: string, word: string)
    requires Tabs(tabs) && (word != [] ==> word[0] != '\t')
    ensures TabStrip(tabs + word) == word
  {
    if tabs == [] {
      assert tabs + word == word;
    } else {
      assert (tabs + word)[0] == tabs[0] && (tabs + word)[1..] == tabs[1..] + word;
      TabsStripped(tabs[1..], word);
    }
  }

  lemma {:induction false} TabStripSplits(line: string)
    ensures exists tabs :: Tabs(tabs) && line == tabs + TabStrip(line)
  {
    if line != [] && line[0] == '\t' {
      TabStripSplits(line[1..]);
      var t :| Tabs(t) && line[1..] == t + TabStrip(line[1..]);
      Assoc(['\t'], t, TabStrip(line));
      assert line == ['\t'] + line[1..];
      assert Tabs(['\t'] + t);
    } else {
      assert line == [] + TabStrip(line) && Tabs([]);
    }
  }

  ghost predicate Tabs(t: string) { forall i :: 0 <= i < |t| ==> t[i] == '\t' }

  /** The `-` form is closed by the word behind tabs and by nothing else, the plain form
      by the word alone. */
  lemma TerminatorExact(word: string, line: string)
    requires word != [] && IsWord(word[0])
    ensures Closes(Doc(word, true), line) <==> exists tabs :: Tabs(tabs) && line == tabs + word
    ensures Closes(Doc(word, false), line) <==> line == word
  {
    TabStripSplits(line);
    forall tabs | Tabs(tabs) && line == tabs + word ensures TabStrip(line) == word {
      TabsStripped(tabs, word);
    }
  }
}
