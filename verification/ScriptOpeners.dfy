/** Which lines open, close and comment, said of the text of the line. */
module ScriptOpeners {
  import opened PyText
  import opened ScriptLines

  ghost predicate OpensDoc(s: string, tabs: bool, word: string) {
    exists blanks, quote, rest :: Opener(s, tabs, blanks, quote, word, rest)
  }

  ghost predicate OpensSome(s: string) { exists tabs, word :: OpensDoc(s, tabs, word) }

  /** The opener found in a line is its leftmost one. */
  ghost predicate Leftmost(line: string, n: int, tabs: bool, word: string) {
    0 <= n <= |line| && OpensDoc(line[n..], tabs, word) && forall k :: 0 <= k < n ==> !OpensSome(line[k..])
  }

  lemma SomeExact(s: string)
    ensures DocAt(s).Some? <==> OpensSome(s)
  {
    if DocAt(s).Some? {
      DocAtExact(s, DocAt(s).value.0, DocAt(s).value.1);
      assert OpensDoc(s, DocAt(s).value.0, DocAt(s).value.1);
    }
    if OpensSome(s) {
      var tabs, word :| OpensDoc(s, tabs, word);
      DocAtExact(s, tabs, word);
    }
  }

  lemma {:induction false} FindAt(line: string, n: nat)
    requires n <= |line| && DocAt(line[n..]).Some? && forall k :: 0 <= k < n ==> DocAt(line[k..]).None?
    ensures FindDoc(line) == DocAt(line[n..])
  {
    if n == 0 {
      assert line[0..] == line;
    } else {
      var t := line[1..];
      assert line[0..] == line && DocAt(line[0..]).None?;
      assert t[n - 1..] == line[n..];
      forall k | 0 <= k < n - 1 ensures DocAt(t[k..]).None? { assert t[k..] == line[k + 1..]; }
      FindAt(t, n - 1);
    }
  }

  lemma {:induction false} FindNone(line: string)
    requires FindDoc(line).None?
    ensures forall k :: 0 <= k <= |line| ==> DocAt(line[k..]).None?
  {
    assert line[0..] == line;
    if line != [] {
      FindNone(line[1..]);
      forall k | 1 <= k <= |line| ensures DocAt(line[k..]).None? { assert line[1..][k - 1..] == line[k..]; }
    }
  }

  lemma {:induction false} FindSome(line: string) returns (n: nat)
    requires FindDoc(line).Some?
    ensures n <= |line| && FindDoc(line) == DocAt(line[n..]) && forall k :: 0 <= k < n ==> DocAt(line[k..]).None?
  {
    assert line[0..] == line;
    if DocAt(line).Some? { return 0; }
    var m := FindSome(line[1..]);
    n := m + 1;
    assert line[1..][m..] == line[n..];
    forall k | 0 <= k < n ensures DocAt(line[k..]).None? {
      if k > 0 { assert line[1..][k - 1..] == line[k..]; }
    }
  }

  lemma FindExact(line: string, tabs: bool, word: string)
    ensures FindDoc(line) == Some((tabs, word)) <==> exists n :: Leftmost(line, n, tabs, word)
    ensures FindDoc(line).None? <==> forall k :: 0 <= k <= |line| ==> !OpensSome(line[k..])
  {
    forall k | 0 <= k <= |line|
      ensures (DocAt(line[k..]).Some? <==> OpensSome(line[k..])) && (DocAt(line[k..]) == Some((tabs, word)) <==> OpensDoc(line[k..], tabs, word))
    {
      SomeExact(line[k..]);
      DocAtExact(line[k..], tabs, word);
    }
    if n :| Leftmost(line, n, tabs, word) { FindAt(line, n); }
    if FindDoc(line).Some? {
      var n := FindSome(line);
      if FindDoc(line) == Some((tabs, word)) { assert Leftmost(line, n, tabs, word); }
      assert OpensSome(line[n..]);
    } else {
      FindNone(line);
    }
  }

  /** `@` and a quote as the last thing on the line, blanks aside; `close` is the quote
      and `@`. */
  ghost predicate OpensStr(line: string, close: string) {
    exists before, blanks :: StrForm(line, close, before, blanks)
  }

  const AT := '@'

  ghost predicate StrForm(line: string, close: string, before: string, blanks: string) {
    (close == ['"', AT] || close == ['\'', AT]) && line == before + [AT, close[0]] + blanks && AllSpace(blanks)
  }

  ghost predicate AtQuote(r: string, close: string) {
    |r| >= 2 && r[|r| - 2] == AT && (r[|r| - 1] == '"' || r[|r| - 1] == '\'') && close == [r[|r| - 1], AT]
  }

  lemma StrExact(line: string, close: string)
    ensures OpensStr(line, close) <==> AtQuote(RStrip(line), close)
  {
    RStripSplits(line);
    if AtQuote(RStrip(line), close) { QuoteEnds(line, RStrip(line), close); }
    if OpensStr(line, close) {
      var before, blanks :| StrForm(line, close, before, blanks);
      RStripOver(before + [AT, close[0]], blanks);
    }
  }

  lemma QuoteEnds(line: string, r: string, close: string)
    requires r <= line && AllSpace(line[|r|..]) && AtQuote(r, close)
    ensures OpensStr(line, close)
  {
    var before := r[..|r| - 2];
    assert r == before + [AT, close[0]];
    assert line == r + line[|r|..];
    assert StrForm(line, close, before, line[|r|..]);
  }

  /** What a code line leaves behind it: the leftmost heredoc opener decides; without one,
      a here-string opener at the line's end. */
  lemma OpensExact(line: string, m: Mode)
    ensures Opens(line) == m <==>
            match m
            case Doc(word, tabs) => exists n :: Leftmost(line, n, tabs, word)
            case Str(close) => (forall k :: 0 <= k <= |line| ==> !OpensSome(line[k..])) && OpensStr(line, close)
            case Code => (forall k :: 0 <= k <= |line| ==> !OpensSome(line[k..])) && !OpensStr(line, "\"@") && !OpensStr(line, "'@")
  {
    match m
    case Doc(word, tabs) => FindExact(line, tabs, word);
    case Str(close) =>
      FindExact(line, false, "");
      StrExact(line, close);
    case Code =>
      FindExact(line, false, "");
      StrExact(line, "\"@");
      StrExact(line, "'@");
  }

  /** A heredoc ends at its word, behind tabs in the dash form and nothing else; a
      here-string at its closing quote and `@`, whatever follows. */
  lemma ClosesExact(m: Mode, line: string)
    requires m.Doc? ==> m.word != [] && IsWord(m.word[0])
    ensures Closes(m, line) <==>
            match m
            case Code => false
            case Doc(word, tabs) => if tabs then exists t :: Tabs(t) && line == t + word else line == word
            case Str(close) => exists rest :: line == close + rest
  {
    if m.Doc? { TerminatorExact(m.word, line); }
    if m.Str? && m.close <= line { assert line == m.close + line[|m.close|..]; }
  }

  lemma {:induction false} RStripKeeps(s: string, i: nat)
    requires i < |s| && !IsSpace(s[i])
    ensures |RStrip(s)| > i
    decreases |s|
  {
    if IsSpace(s[|s| - 1]) { RStripKeeps(s[..|s| - 1], i); }
  }

  ghost predicate Comment(line: string, blanks: string, rest: string) { AllSpace(blanks) && line == blanks + "#" + rest }

  /** A comment line is one that reads `#` behind any blanks. */
  lemma HashExact(line: string)
    ensures Hash(line) <==> exists blanks, rest :: Comment(line, blanks, rest)
  {
    var r := RStrip(line);
    RStripSplits(line);
    if Hash(line) {
      LStripSplits(r);
      var blanks :| AllSpace(blanks) && r == blanks + LStrip(r);
      CommentParts(line, r, blanks, LStrip(r));
    }
    if exists blanks, rest :: Comment(line, blanks, rest) {
      var blanks, rest :| Comment(line, blanks, rest);
      assert line[|blanks|] == '#';
      RStripKeeps(line, |blanks|);
      var t := r[|blanks|..];
      assert r == blanks + t && t[0] == '#';
      LStripOver(blanks, t);
    }
  }

  lemma CommentParts(line: string, r: string, blanks: string, t: string)
    requires r <= line && AllSpace(blanks) && r == blanks + t && t != [] && t[0] == '#'
    ensures exists b, rest :: Comment(line, b, rest)
  {
    var rest := line[|blanks| + 1..];
    assert line == blanks + "#" + rest;
    assert Comment(line, blanks, rest);
  }
}
