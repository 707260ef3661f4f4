/** The line scanner against the program that runs the script: for any reading of what
    opens a block, exactly when the two stand in the same state at every line. */
module ScriptShell {
  import opened PyText
  import opened ScriptLines

  /** What a code line opens, for the program that runs the script: a comment, a shift in
      an arithmetic expansion or a quoted `<<` may open nothing. Bodies end alike. */
  type Reading = string -> Mode

  function ShellNext(shell: Reading, m: Mode, line: string): Mode {
    if m.Code? then shell(line) else Next(m, line)
  }

  function ShellMarks(shell: Reading, m: Mode, lines: seq<string>): (out: seq<(string, bool)>)
    ensures |out| == |lines|
    decreases lines
  {
    if lines == [] then []
    else [(lines[0], m.Code? && Hash(lines[0]))] + ShellMarks(shell, ShellNext(shell, m, lines[0]), lines[1..])
  }

  /** The state of the program after a run of lines. */
  function ShellAfter(shell: Reading, m: Mode, lines: seq<string>): Mode
    decreases lines
  {
    if lines == [] then m else ShellAfter(shell, ShellNext(shell, m, lines[0]), lines[1..])
  }

  lemma {:induction false} ShellAfterSnoc(shell: Reading, m: Mode, a: seq<string>, x: string)
    ensures ShellAfter(shell, m, a + [x]) == ShellNext(shell, ShellAfter(shell, m, a), x)
    decreases a
  {
    if a == [] {
      assert a + [x] == [x] && [x][1..] == [];
    } else {
      assert (a + [x])[0] == a[0] && (a + [x])[1..] == a[1..] + [x];
      ShellAfterSnoc(shell, ShellNext(shell, m, a[0]), a[1..], x);
    }
  }

  lemma StatesStep(shell: Reading, m: Mode, lines: seq<string>, i: nat)
    requires i < |lines|
    ensures After(m, lines[..i + 1]) == Next(After(m, lines[..i]), lines[i])
    ensures ShellAfter(shell, m, lines[..i + 1]) == ShellNext(shell, ShellAfter(shell, m, lines[..i]), lines[i])
  {
    assert lines[..i + 1] == lines[..i] + [lines[i]];
    AfterAppend(m, lines[..i], [lines[i]]);
    OneLine(After(m, lines[..i]), lines[i]);
    ShellAfterSnoc(shell, m, lines[..i], lines[i]);
  }

  /** A line the program reads as code and takes to open something else than the scanner
      does. */
  ghost predicate Misread(shell: Reading, m: Mode, lines: seq<string>, i: nat)
    requires i < |lines|
  {
    ShellAfter(shell, m, lines[..i]).Code? && shell(lines[i]) != Opens(lines[i])
  }

  lemma {:induction false} StatesAgree(shell: Reading, m: Mode, lines: seq<string>, i: nat)
    requires i <= |lines| && forall j :: 0 <= j < i ==> !Misread(shell, m, lines, j)
    ensures After(m, lines[..i]) == ShellAfter(shell, m, lines[..i])
  {
    if i > 0 {
      StatesAgree(shell, m, lines, i - 1);
      StatesStep(shell, m, lines, i - 1);
      assert !Misread(shell, m, lines, i - 1);
    } else {
      assert lines[..0] == [];
    }
  }

  /** Whatever the program takes for an opener, the scanner stands where it does at every
      line if and only if the two agree on every line the program reads as code. */
  lemma ShellExact(shell: Reading, m: Mode, lines: seq<string>)
    ensures (forall i :: 0 <= i <= |lines| ==> After(m, lines[..i]) == ShellAfter(shell, m, lines[..i]))
            <==> !exists i :: 0 <= i < |lines| && Misread(shell, m, lines, i)
  {
    if exists i :: 0 <= i < |lines| && Misread(shell, m, lines, i) {
      var i :| 0 <= i < |lines| && Misread(shell, m, lines, i);
      StatesStep(shell, m, lines, i);
      assert After(m, lines[..i]) == ShellAfter(shell, m, lines[..i]) ==> After(m, lines[..i + 1]) != ShellAfter(shell, m, lines[..i + 1]);
    } else {
      forall i | 0 <= i <= |lines| ensures After(m, lines[..i]) == ShellAfter(shell, m, lines[..i]) { StatesAgree(shell, m, lines, i); }
    }
  }

  lemma {:induction false} ShellSkips(shell: Reading, m: Mode, lines: seq<string>, i: nat)
    requires i < |lines|
    ensures ShellMarks(shell, m, lines)[i] == (lines[i], ShellAfter(shell, m, lines[..i]).Code? && Hash(lines[i]))
    decreases lines
  {
    if i > 0 {
      assert lines[..i][0] == lines[0] && lines[..i][1..] == lines[1..][..i - 1];
      ShellSkips(shell, ShellNext(shell, m, lines[0]), lines[1..], i - 1);
    } else {
      assert lines[..0] == [];
    }
  }

  /** And then it skips exactly the lines that are comments to the program: no body line. */
  lemma ShellAgrees(shell: Reading, m: Mode, lines: seq<string>)
    requires !exists i :: 0 <= i < |lines| && Misread(shell, m, lines, i)
    ensures Marks(m, lines) == ShellMarks(shell, m, lines)
  {
    ShellExact(shell, m, lines);
    forall i | 0 <= i < |lines| ensures Marks(m, lines)[i] == ShellMarks(shell, m, lines)[i] {
      LinesYielded(m, lines, i);
      SkippedExact(m, lines, i);
      ShellSkips(shell, m, lines, i);
    }
  }

  // ------------------------------------------------------------------- false openers

  /** A line in which the scanner alone sees an opener puts it inside a block that is not
      there; a later real body holding the closing line then has its `#` lines skipped. */
  lemma FalseOpener(shell: Reading, c: string, o: string, w: string, b: string, rest: seq<string>)
    requires shell(c).Code? && Opens(c).Doc? && Closes(Opens(c), w) && !Closes(Opens(c), o)
    requires !shell(o).Code? && !Closes(shell(o), w) && Hash(b)
    ensures Marks(Code, [c, o, w, b] + rest)[3] == (b, true)
    ensures ShellMarks(shell, Code, [c, o, w, b] + rest)[3] == (b, false)
  {
    var lines := [c, o, w, b] + rest;
    assert lines[..3] == [c, o, w];
    AfterThree(shell, c, o, w);
    LinesYielded(Code, lines, 3);
    SkippedExact(Code, lines, 3);
    ShellSkips(shell, Code, lines, 3);
  }

  lemma AfterThree(shell: Reading, c: string, o: string, w: string)
    ensures After(Code, [c, o, w]) == Next(Next(Next(Code, c), o), w)
    ensures ShellAfter(shell, Code, [c, o, w]) == ShellNext(shell, ShellNext(shell, ShellNext(shell, Code, c), o), w)
  {
    assert [c, o, w][1..] == [o, w] && [o, w][1..] == [w] && [w][1..] == [];
    var m1 := Next(Code, c);
    assert After(Code, [c, o, w]) == After(m1, [o, w]) == After(Next(m1, o), [w]);
    var s1 := ShellNext(shell, Code, c);
    assert ShellAfter(shell, Code, [c, o, w]) == ShellAfter(shell, s1, [o, w]) == ShellAfter(shell, ShellNext(shell, s1, o), [w]);
  }

  /** The reading that differs from the scanner's only in that a comment opens nothing. */
  function CommentsApart(line: string): Mode { if Hash(line) then Code else Opens(line) }

  /** For it the exact condition is that no comment holds an opener. */
  lemma CommentExact(m: Mode, lines: seq<string>)
    ensures (forall i :: 0 <= i <= |lines| ==> After(m, lines[..i]) == ShellAfter(CommentsApart, m, lines[..i]))
            <==> !exists i :: 0 <= i < |lines| && ShellAfter(CommentsApart, m, lines[..i]).Code? && Hash(lines[i]) && !Opens(lines[i]).Code?
  {
    ShellExact(CommentsApart, m, lines);
    forall i | 0 <= i < |lines|
      ensures Misread(CommentsApart, m, lines, i)
              <==> ShellAfter(CommentsApart, m, lines[..i]).Code? && Hash(lines[i]) && !Opens(lines[i]).Code?
    {
    }
  }

  lemma PlainOpener(before: string, w: char)
    requires '<' !in before && IsWord(w)
    ensures Opens(before + ("<<" + [w])) == Doc([w], false)
  {
    var s := "<<" + [w];
    assert Opener(s, false, "", "", [w], "");
    DocAtReads(s, false, "", "", [w], "");
    OpenerFound(before, s);
  }

  lemma HashReads(tail: string)
    requires tail != [] && !IsSpace(tail[|tail| - 1])
    ensures Hash("#" + tail)
  {
    var s := "#" + tail;
    assert s[0] == '#' && s[|s| - 1] == tail[|tail| - 1];
    assert RStrip(s) == s && LStrip(s) == s;
  }

  lemma NoHash(line: string)
    requires line != [] && !IsSpace(line[0]) && line[0] != '#' && !IsSpace(line[|line| - 1])
    ensures !Hash(line)
  {
    assert RStrip(line) == line && LStrip(line) == line;
  }

  lemma SampleComment()
    ensures Hash("# a <<A") && Opens("# a <<A") == Doc(['A'], false)
  {
    var c, tail := "# a <<A", " a <<A";
    assert c == "# a " + ("<<" + ['A']);
    PlainOpener("# a ", 'A');
    assert c == "#" + tail && tail[5] == 'A';
    HashReads(tail);
  }

  lemma SampleCommand()
    ensures !Hash("b <<B") && Opens("b <<B") == Doc(['B'], false)
  {
    var o := "b <<B";
    assert o == "b " + ("<<" + ['B']);
    PlainOpener("b ", 'B');
    assert o[0] == 'b' && o[4] == 'B';
    NoHash(o);
  }

  lemma SampleBody()
    ensures Hash("# x")
  {
    assert "# x" == "#" + " x" && " x"[1] == 'x';
    HashReads(" x");
  }

  lemma FalseOpenerA(shell: Reading, c: string, o: string, b: string, rest: seq<string>)
    requires shell(c).Code? && Opens(c) == Doc(['A'], false) && shell(o) == Doc(['B'], false) && |o| > 1 && Hash(b)
    ensures Marks(Code, [c, o, ['A'], b] + rest)[3] == (b, true) && ShellMarks(shell, Code, [c, o, ['A'], b] + rest)[3] == (b, false)
  {
    FalseOpener(shell, c, o, ['A'], b, rest);
  }

  /** A concrete script: the comment `# a <<A`, the command `b <<B`, and its body lines
      `A` and `# x`, of which the scanner skips the last. */
  lemma BodyLineSkipped()
    ensures var lines := ["# a <<A", "b <<B", ['A'], "# x"] + [['B']];
            Marks(Code, lines)[3] == ("# x", true) && ShellMarks(CommentsApart, Code, lines)[3] == ("# x", false)
  {
    SampleComment();
    SampleCommand();
    SampleBody();
    FalseOpenerA(CommentsApart, "# a <<A", "b <<B", "# x", [['B']]);
  }

  lemma SampleShift()
    ensures !Hash(": $((1 <<A))") && Opens(": $((1 <<A))") == Doc(['A'], false)
  {
    assert ": $((1 <<A))" == ": $((1 " + ("<<" + ['A'] + "))");
    ShiftOpens(": $((1 ", "))");
    ShiftCode(": $((1 <<A))");
  }

  lemma ShiftCode(c: string)
    requires |c| == 12 && c[0] == ':' && c[11] == ')'
    ensures !Hash(c)
  {
    NoHash(c);
  }

  lemma ShiftOpens(before: string, rest: string)
    requires '<' !in before && rest != [] && !IsWord(rest[0])
    ensures Opens(before + ("<<" + ['A'] + rest)) == Doc(['A'], false)
  {
    var s := "<<" + ['A'] + rest;
    assert s == "<<" + ("" + ("" + ("" + (['A'] + ("" + rest)))));
    assert Opener(s, false, "", "", ['A'], rest);
    DocAtReads(s, false, "", "", ['A'], rest);
    OpenerFound(before, s);
  }

  /** It need not be a comment. To any program that takes the shift in `: $((1 <<A))` for
      arithmetic and `cat <<B` for a heredoc, the body line `# x` is output, and the
      scanner skips it. */
  lemma ShiftSkips(shell: Reading)
    requires shell(": $((1 <<A))") == Code && shell("cat <<B") == Doc(['B'], false)
    ensures !Hash(": $((1 <<A))")
    ensures var lines := [": $((1 <<A))", "cat <<B", ['A'], "# x"] + [['B']];
            Marks(Code, lines)[3] == ("# x", true) && ShellMarks(shell, Code, lines)[3] == ("# x", false)
  {
    SampleShift();
    SampleBody();
    FalseOpenerA(shell, ": $((1 <<A))", "cat <<B", "# x", [['B']]);
  }
}
