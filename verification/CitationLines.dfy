/** The lines of a cited file: where they end, and what a range that starts at 0 holds. */
module CitationLines {
  import opened PyText
  import opened CitationText
  import opened CitationGate

  /** Line feed, vertical tab, form feed, carriage return, the three separators, next
      line, line and paragraph separator. */
  ghost predicate Break(c: char) { c as int in {10, 11, 12, 13, 28, 29, 30, 0x85, 0x2028, 0x2029} }

  ghost predicate NoBreak(line: string) { forall i :: 0 <= i < |line| ==> !Break(line[i]) }

  /** One break: a carriage return and a line feed, or any single one. */
  ghost predicate Ends(end: string) { end == "\r\n" || (|end| == 1 && Break(end[0])) }

  /** The text is the lines, each with its break, and a last line without one; a carriage
      return takes the line feed behind it. */
  ghost predicate Reads(body: string, lines: seq<(string, string)>, last: string)
    decreases lines
  {
    if lines == [] then body == last && NoBreak(last)
    else
      var (line, end) := lines[0];
      && |line| + |end| <= |body| && body[..|line|] == line && body[|line|..|line| + |end|] == end && NoBreak(line) && Ends(end)
      && (end == "\r" ==> !("\n" <= body[|line| + |end|..]))
      && Reads(body[|line| + |end|..], lines[1..], last)
  }

  /** Their texts; an empty last line is none. */
  ghost function Texts(lines: seq<(string, string)>, last: string): seq<string> {
    if lines == [] then (if last == [] then [] else [last]) else [lines[0].0] + Texts(lines[1..], last)
  }

  lemma BreakIs(c: char)
    ensures LineBreak(c) <==> Break(c)
  {
  }

  lemma {:induction false} Unbroken(s: string, rest: string, line: string)
    requires NoBreak(s)
    ensures SplitLinesFrom(s + rest, line) == SplitLinesFrom(rest, line + s)
  {
    if s == [] {
      assert s + rest == rest && line + s == line;
    } else {
      BreakIs(s[0]);
      assert (s + rest)[0] == s[0] && (s + rest)[1..] == s[1..] + rest;
      Unbroken(s[1..], rest, line + [s[0]]);
      assert s == [s[0]] + s[1..];
      Assoc(line, [s[0]], s[1..]);
    }
  }

  lemma BreakSplits(end: string, rest: string, line: string)
    requires Ends(end) && (end == "\r" ==> !("\n" <= rest))
    ensures SplitLinesFrom(end + rest, line) == [line] + SplitLinesFrom(rest, [])
  {
    var s := end + rest;
    BreakIs(s[0]);
    if end == "\r\n" {
      assert s[2..] == rest;
    } else {
      assert s[1..] == rest;
      if s[0] == '\r' { assert end == "\r"; }
    }
  }

  /** The lines of a file are what its text reads as. */
  lemma {:induction false} ReadsLines(body: string, lines: seq<(string, string)>, last: string)
    requires Reads(body, lines, last)
    ensures FileLines(body) == Texts(lines, last)
    decreases lines
  {
    if lines == [] {
      assert body == last + "" && "" + last == last;
      Unbroken(last, "", "");
    } else {
      var (line, end) := lines[0];
      var rest := body[|line| + |end|..];
      assert body == line + (end + rest);
      Unbroken(line, end + rest, "");
      assert "" + line == line;
      BreakSplits(end, rest, line);
      ReadsLines(rest, lines[1..], last);
    }
  }

  /** And every text reads as some lines. */
  lemma {:induction false} SomeLines(body: string) returns (lines: seq<(string, string)>, last: string)
    ensures Reads(body, lines, last)
    decreases |body|
  {
    var n := 0;
    while n < |body| && !Break(body[n])
      invariant n <= |body| && NoBreak(body[..n])
    {
      assert body[..n + 1] == body[..n] + [body[n]];
      n := n + 1;
    }
    if n == |body| {
      assert body[..n] == body;
      return [], body;
    }
    var end := if body[n] == '\r' && n + 1 < |body| && body[n + 1] == '\n' then "\r\n" else [body[n]];
    assert body[n..n + |end|] == end;
    var more, tail := SomeLines(body[n + |end|..]);
    lines, last := [(body[..n], end)] + more, tail;
    assert lines[1..] == more;
  }

  /** So the lines of a file are exactly the texts of any reading of it. */
  lemma LinesExact(body: string, ls: seq<string>)
    ensures FileLines(body) == ls <==> exists lines, last :: Reads(body, lines, last) && ls == Texts(lines, last)
  {
    var some, end := SomeLines(body);
    ReadsLines(body, some, end);
    forall lines, last | Reads(body, lines, last) ensures FileLines(body) == Texts(lines, last) { ReadsLines(body, lines, last); }
  }

  /** A range that starts at 0 holds the last line when it ends there, and nothing else:
      the lower bound is -1. */
  lemma ZeroExact(lines: seq<string>, end: nat, needle: string)
    ensures InRange(lines, 0, end, needle) <==>
            end <= |lines| && (if end == |lines| > 0 then Holds(lines[|lines| - 1], needle) else needle == "")
  {
    if 0 < end == |lines| {
      assert Slice(lines, -1, end) == [lines[|lines| - 1]];
      assert Join([lines[|lines| - 1]], '\n') == lines[|lines| - 1];
    } else if end <= |lines| {
      assert Slice(lines, -1, end) == [];
      NothingHeld(needle);
    }
  }

  lemma NothingHeld(needle: string)
    ensures Holds("", needle) <==> needle == ""
  {
    if needle == "" { assert Occurs("", needle, 0); }
  }
}
