/** Fix then check fails on a concrete text: a rewritten citation whose anchor is itself
    a rewritten citation. */
module CitationNested {
  import opened PyText
  import opened CitationText
  import opened CitationGate
  import opened CitationFacts
  import opened CitationFix
  import opened CitationEdits

  lemma NoHits(body: string, needle: string)
    requires forall p: nat :: !Occurs(body, needle, p)
    ensures Hits(body, needle) == []
  {
    assert Find(body, needle, 0) == None;
  }

  lemma BodyTight(p: string)
    requires Body(p).Some?
    ensures Strip(p) == p
  {
    BodyShape(p);
    PathFree(Body(p).value.path);
    BodyEnds(p);
  }

  lemma BodyEnds(p: string)
    requires Body(p).Some?
    ensures p != [] && !IsSpace(p[|p| - 1])
  {
    var parts := SplitOn(p, ':');
    JoinSplit(p, ':');
    assert parts == [parts[0], parts[1]] && Join(parts, ':') == parts[0] + [':'] + parts[1];
    var nums := SplitOn(parts[1], '-');
    JoinSplit(parts[1], '-');
    if |nums| == 2 { assert nums == [nums[0], nums[1]] && Join(nums, '-') == nums[0] + ['-'] + nums[1]; }
    assert IsDigit(nums[|nums| - 1][|nums[|nums| - 1]| - 1]);
  }

  lemma TickAnchorReads(pieces: seq<string>, k: nat)
    requires 0 < k && TickAnchor(pieces, k) && Body(pieces[k + 2]).Some? && 4 <= |pieces[k + 2]| <= 120
    ensures AnchorAt(pieces, k) == Anchor(pieces[k + 2])
  {
    BodyChars(pieces[k + 2]);
    RunWhole(pieces[k + 2], 0);
    assert pieces[k + 2][0..|pieces[k + 2]|] == pieces[k + 2];
  }

  predicate TickAnchor(pieces: seq<string>, k: nat) {
    k + 3 < |pieces| && TickAnchored(pieces, k)
  }

  ghost predicate OneLine(s: string) { forall i :: 0 <= i < |s| ==> !LineBreak(s[i]) }

  const ZZ := "\nzz"

  lemma {:induction false} LinesOfTwo(x: string, line: string)
    requires OneLine(x)
    ensures SplitLinesFrom(x + ZZ, line) == [line + x, "zz"]
    decreases x
  {
    var s := x + ZZ;
    if x == [] {
      ZzSplits();
      assert s == ZZ && s[0] == '\n' && s[1..] == "zz";
      assert line + x == line;
    } else {
      var c, rest := x[0], x[1..];
      assert x == [c] + rest;
      assert s[0] == c && s[1..] == rest + ZZ;
      assert OneLine(rest) && !LineBreak(c);
      LinesOfTwo(rest, line + [c]);
      Assoc(line, [c], rest);
    }
  }

  lemma ZzSplits()
    ensures SplitLinesFrom("zz", []) == ["zz"]
  {
    assert "zz"[1..] == "z" && "z"[1..] == "";
    var one, two := [] + ['z'], [] + ['z'] + ['z'];
    assert SplitLinesFrom("", two) == [two];
    assert SplitLinesFrom("z", one) == SplitLinesFrom("", two);
    assert two == "zz";
  }

  lemma TwoLineBody(n: string)
    ensures Join([n, "zz"], '\n') == n + ZZ
  {
    assert [n, "zz"][1..] == ["zz"];
    assert n + ['\n'] + "zz" == n + ZZ;
  }

  lemma BreakInside(n: string, p: nat)
    requires 0 < p <= 3 < |n|
    ensures '\n' in (n + ZZ)[p..p + |n|]
  {
    assert (n + ZZ)[|n|] == '\n';
    assert (n + ZZ)[p..p + |n|][|n| - p] == '\n';
  }

  /** A text without line breaks occurs in a two-line file only as its first line. */
  lemma OccursFirst(n: string, m: string, p: nat)
    requires |m| == |n| >= 4 && '\n' !in m
    ensures Occurs(n + ZZ, m, p) ==> p == 0 && m == n
  {
    if 0 < p <= 3 {
      BreakInside(n, p);
    } else {
      assert (n + ZZ)[0..|m|] == n;
    }
  }

  /** Cited one line below, it is re-anchored at line 1. */
  lemma ReanchorsToOne(n: string)
    requires |n| >= 4 && '\n' !in n
    ensures var r := RepairAnchored([n, "zz"], 2, 2, n); r.Rewrite? && r.start == 1 && r.end == 1
  {
    var lines := [n, "zz"];
    TwoLineBody(n);
    SecondLineLacks(n);
    OnlyHit(n);
    CountZero(n, '\n');
  }

  lemma SecondLineLacks(n: string)
    requires |n| >= 4
    ensures !InRange([n, "zz"], 2, 2, n)
  {
    assert Slice([n, "zz"], 1, 2) == ["zz"] && Join(["zz"], '\n') == "zz";
  }

  lemma OnlyHit(n: string)
    requires |n| >= 4 && '\n' !in n
    ensures Hits(n + ZZ, n) == [1]
  {
    var body := n + ZZ;
    assert Occurs(body, n, 0) && LineAt(body, 0) == 1;
    forall p: nat | p <= |body| && Occurs(body, n, p) ensures LineAt(body, p) == 1 { OccursFirst(n, n, p); }
    HitsOne(body, n, 0, 1);
  }

  /** A text that starts on one line only has that one hit. */
  lemma HitsOne(body: string, needle: string, p: nat, line: nat)
    requires p <= |body| && Occurs(body, needle, p)
    requires forall q: nat :: q <= |body| && Occurs(body, needle, q) ==> LineAt(body, q) == line
    ensures Hits(body, needle) == [line]
  {
    HitsExact(body, needle);
    assert LineAt(body, p) == line && HitLine(body, needle, 0, line);
    AllEqual(Hits(body, needle), line);
  }

  /** Any other text of that length is nowhere in the file. */
  lemma OtherIsError(n: string, m: string, mode: Mode)
    requires |m| == |n| >= 4 && '\n' !in m && m != n
    ensures IsError(GradeAnchored([n, "zz"], 1, 1, m, mode))
  {
    TwoLineBody(n);
    forall p: nat ensures !Occurs(n + ZZ, m, p) {
      OccursFirst(n, m, p);
    }
    NoHits(n + ZZ, m);
    FirstLineLacks(n, m);
  }

  lemma FirstLineLacks(n: string, m: string)
    requires |m| == |n| && m != n
    ensures !InRange([n, "zz"], 1, 1, m)
  {
    assert Slice([n, "zz"], 0, 1) == [n] && Join([n], '\n') == n;
    forall p | 0 <= p <= |n| ensures !Occurs(n, m, p) {
      if p == 0 { assert n[0..|m|] == n; }
    }
  }

  lemma {:induction false} RunTo(s: string, i: nat, j: nat)
    requires i <= j < |s| && Closes(s[j]) && forall k :: i <= k < j ==> !Closes(s[k])
    ensures RunLength(s, i) == j
    decreases j - i
  {
    if i < j { RunTo(s, i + 1, j); }
  }

  const OPEN := " ("

  lemma OpenReads()
    ensures AfterParen(OPEN) == Some(2) && AfterParen(OPEN) == Some(|OPEN|)
  {
    assert OPEN[0] == ' ' && OPEN[1] == '(';
    assert SkipSpace(OPEN, 1) == 1;
    assert SkipSpace(OPEN, 0) == 1;
  }

  lemma QuotedReads(lead: string, d: string)
    requires lead == OPEN + ['"'] + d + ['"'] && 4 <= |d| <= 120 && forall i :: 0 <= i < |d| ==> !Closes(d[i])
    ensures AfterParen(lead) == Some(2) && lead[2] == '"' && Delimited(lead, 3, false) == Anchor(d)
  {
    assert lead[0] == ' ' && lead[1] == '(' && lead[2] == '"';
    assert SkipSpace(lead, 1) == 1;
    assert SkipSpace(lead, 0) == 1;
    assert SkipSpace(lead, 2) == 2;
    assert forall k :: 3 <= k < 3 + |d| ==> lead[k] == d[k - 3];
    RunTo(lead, 3, 3 + |d|);
    assert lead[3..3 + |d|] == d;
  }

  /** `x` cites line 2 of `outer`, anchored on a citation of line 2 of `inner`, which is
      anchored on the text `d`; each anchor is the first line of its file. */
  function NestedPieces(outer: string, inner: string, d: string): seq<string> {
    ["x ", outer + ":" + "2", OPEN, inner + ":" + "2", OPEN + ['"'] + d + ['"']]
  }

  function NestedContext(outer: string, inner: string, d: string): Context {
    Context(false, map[outer := (inner + ":" + "2") + ZZ, inner := d + ZZ])
  }

  ghost predicate Sample(outer: string, inner: string, d: string) {
    && PathOk(outer) && PathOk(inner) && outer != inner && !ForeignPath(outer) && !ForeignPath(inner)
    && 2 <= |inner| <= 100
    && 4 <= |d| <= 120 && OneLine(d) && Strip(d) == d && '\n' !in d && forall i :: 0 <= i < |d| ==> !Closes(d[i])
  }

  lemma TwoIsTwo()
    ensures Numeral("2") && ToInt("2") == 2 && Numeral("1") && ToStr(1) == "1" && |ToStr(1)| == 1
  {
    assert "2"[..0] == "";
  }

  lemma NestedCites(outer: string, inner: string, d: string)
    requires Sample(outer, inner, d)
    ensures var pieces := NestedPieces(outer, inner, d);
            && Citations(pieces) == [1, 3]
            && Body(pieces[1]) == Some(Cite(outer, "2", None)) && Body(pieces[3]) == Some(Cite(inner, "2", None))
  {
    TwoIsTwo();
    LineReads(outer, "2");
    LineReads(inner, "2");
    var flags := Flags(NestedPieces(outer, inner, d));
    assert |flags| == 5 && flags[1] && flags[3];
    assert Scan(flags, 5) == [];
    assert Scan(flags, 3) == [3];
  }

  lemma PathOneLine(p: string)
    requires PathOk(p)
    ensures OneLine(p + ":" + "2") && '\n' !in p + ":" + "2"
  {
    PathChars(p);
    forall i | 0 <= i < |p| ensures !LineBreak(p[i]) { assert PathChar(p[i]); }
  }

  lemma NestedRepairs(outer: string, inner: string, d: string)
    requires Sample(outer, inner, d)
    ensures var pieces, ctx := NestedPieces(outer, inner, d), NestedContext(outer, inner, d);
            && IsCite(pieces, 1) && IsCite(pieces, 3)
            && RepairOf(ctx, pieces, 1) == RepairAnchored([pieces[3], "zz"], 2, 2, pieces[3])
            && RepairOf(ctx, pieces, 3) == RepairAnchored([d, "zz"], 2, 2, d)
  {
    var ctx, line := NestedContext(outer, inner, d), inner + ":" + "2";
    PathOneLine(inner);
    FileOfTwo(line);
    OuterRepair(ctx, outer, inner, d, [line, "zz"]);
    InnerRepair(ctx, outer, inner, d);
  }

  lemma RepairAt(ctx: Context, pieces: seq<string>, k: nat, path: string, lines: seq<string>, anchor: string)
    requires IsCite(pieces, k) && Body(pieces[k]) == Some(Cite(path, "2", None)) && !ForeignPath(path)
    requires path in ctx.files && FileLines(ctx.files[path]) == lines
    requires AnchorAt(pieces, k) == Anchor(anchor) && Strip(anchor) == anchor
    ensures RepairOf(ctx, pieces, k) == RepairAnchored(lines, 2, 2, anchor)
  {
    TwoIsTwo();
  }

  lemma FileOfTwo(x: string)
    requires OneLine(x)
    ensures FileLines(x + ZZ) == [x, "zz"]
  {
    LinesOfTwo(x, []);
    assert [] + x == x;
  }

  lemma OuterRepair(ctx: Context, outer: string, inner: string, d: string, lines: seq<string>)
    requires Sample(outer, inner, d) && outer in ctx.files && FileLines(ctx.files[outer]) == lines
    ensures var pieces := NestedPieces(outer, inner, d);
            && IsCite(pieces, 1) && AnchorAt(pieces, 1) == Anchor(pieces[3]) && TickAnchored(pieces, 1)
            && RepairOf(ctx, pieces, 1) == RepairAnchored(lines, 2, 2, pieces[3])
  {
    var pieces := NestedPieces(outer, inner, d);
    NestedCites(outer, inner, d);
    OuterAnchor(pieces);
    BodyTight(pieces[3]);
    RepairAt(ctx, pieces, 1, outer, lines, pieces[3]);
  }

  lemma OuterAnchor(pieces: seq<string>)
    requires |pieces| == 5 && pieces[2] == OPEN && Body(pieces[3]).Some? && 4 <= |pieces[3]| <= 120
    ensures AnchorAt(pieces, 1) == Anchor(pieces[3]) && TickAnchored(pieces, 1)
  {
    OpenReads();
    TickAnchorReads(pieces, 1);
  }

  lemma InnerRepair(ctx: Context, outer: string, inner: string, d: string)
    requires Sample(outer, inner, d) && inner in ctx.files && ctx.files[inner] == d + ZZ
    ensures var pieces := NestedPieces(outer, inner, d);
            IsCite(pieces, 3) && RepairOf(ctx, pieces, 3) == RepairAnchored([d, "zz"], 2, 2, d)
  {
    var pieces := NestedPieces(outer, inner, d);
    NestedCites(outer, inner, d);
    FileOfTwo(d);
    QuotedReads(pieces[4], d);
    RepairAt(ctx, pieces, 3, inner, [d, "zz"], d);
  }

  lemma SinglePieces(pieces: seq<string>)
    requires |pieces| == 5 && pieces[0] == "x " && Free(pieces, TICK) && Free(pieces, '\n')
    ensures Pieces(Join(pieces, TICK)) == pieces
  {
    var text := Join(pieces, TICK);
    NoBreaks(pieces);
    SplitFree(text, '\n');
    FirstOfJoin(pieces);
    assert text[0] == "x "[0] == 'x';
    assert LStrip(text) == text && !FenceLine(text);
    assert [text][1..] == ([text][..0]);
    assert StripLines([text], false) == [text];
    SplitJoin(pieces, TICK);
  }

  lemma {:induction false} NoBreaks(pieces: seq<string>)
    requires Free(pieces, '\n')
    ensures '\n' !in Join(pieces, TICK)
  {
    if |pieces| > 1 {
      assert Free(pieces[1..], '\n') by { assert forall i :: 0 <= i < |pieces[1..]| ==> pieces[1..][i] == pieces[i + 1]; }
      NoBreaks(pieces[1..]);
    }
  }

  lemma NestedFree(outer: string, inner: string, d: string)
    requires Sample(outer, inner, d)
    ensures var pieces := NestedPieces(outer, inner, d); Free(pieces, TICK) && Free(pieces, '\n')
  {
    var pieces := NestedPieces(outer, inner, d);
    SpanFree(outer);
    SpanFree(inner);
    LeadFree(d);
    assert pieces[0] == "x " && pieces[2] == OPEN;
    assert forall i :: 0 <= i < |pieces| ==> TICK !in pieces[i] && '\n' !in pieces[i];
  }

  lemma SpanFree(path: string)
    requires PathOk(path)
    ensures TICK !in path + ":" + "2" && '\n' !in path + ":" + "2"
  {
    TwoIsTwo();
    LineReads(path, "2");
    BodyShape(path + ":" + "2");
    BodyChars(path + ":" + "2");
  }

  lemma LeadFree(d: string)
    requires '\n' !in d && forall i :: 0 <= i < |d| ==> !Closes(d[i])
    ensures var lead := OPEN + ['"'] + d + ['"']; TICK !in lead && '\n' !in lead
  {
    assert forall i :: 0 <= i < |d| ==> d[i] != TICK;
  }

  /** On such a text the fixer rewrites both citations, and the outer one, which now
      names the line its anchor stood on, is an error in every mode. */
  lemma NestedFixFails(outer: string, inner: string, d: string, mode: Mode)
    requires Sample(outer, inner, d)
    ensures var text, ctx := Join(NestedPieces(outer, inner, d), TICK), NestedContext(outer, inner, d);
            var before, after := Pieces(text), Pieces(FixedText(ctx, text));
            && 1 in Citations(before) && IsCite(before, 1) && RepairOf(ctx, before, 1).Rewrite?
            && IsCite(after, 1) && IsError(GradeOf(ctx, after, 1, mode))
  {
    var pieces, ctx := NestedPieces(outer, inner, d), NestedContext(outer, inner, d);
    var text := Join(pieces, TICK);
    NestedFree(outer, inner, d);
    SinglePieces(pieces);
    NestedCites(outer, inner, d);
    NestedRepairs(outer, inner, d);
    PathOneLine(inner);
    ReanchorsToOne(pieces[3]);
    ReanchorsToOne(d);
    FixedTextPieces(ctx, text);
    NestedAfter(outer, inner, d, mode);
  }

  lemma NestedAfter(outer: string, inner: string, d: string, mode: Mode)
    requires Sample(outer, inner, d)
    requires var pieces, ctx := NestedPieces(outer, inner, d), NestedContext(outer, inner, d);
             && IsCite(pieces, 1) && IsCite(pieces, 3)
             && RepairOf(ctx, pieces, 1).Rewrite? && RepairOf(ctx, pieces, 1).start == 1 && RepairOf(ctx, pieces, 1).end == 1
             && RepairOf(ctx, pieces, 3).Rewrite? && RepairOf(ctx, pieces, 3).start == 1 && RepairOf(ctx, pieces, 3).end == 1
    ensures var pieces, ctx := NestedPieces(outer, inner, d), NestedContext(outer, inner, d);
            var after := FixedPieces(Flags(pieces), NewBodies(ctx, pieces), pieces);
            IsCite(after, 1) && IsError(GradeOf(ctx, after, 1, mode))
  {
    var pieces, ctx := NestedPieces(outer, inner, d), NestedContext(outer, inner, d);
    var after := FixedPieces(Flags(pieces), NewBodies(ctx, pieces), pieces);
    NestedCites(outer, inner, d);
    PieceAfter(ctx, pieces, 1);
    PieceAfter(ctx, pieces, 2);
    PieceAfter(ctx, pieces, 3);
    RewrittenBody(ctx, pieces, 1);
    RewrittenBody(ctx, pieces, 3);
    RewriteDiffers(ctx, pieces, 3);
    AfterGrade(outer, inner, d, after, mode);
  }

  lemma AfterGrade(outer: string, inner: string, d: string, after: seq<string>, mode: Mode)
    requires Sample(outer, inner, d) && |after| == 5 && after[2] == OPEN
    requires Body(after[1]).Some? && Body(after[1]).value.path == outer && Start(Body(after[1]).value) == 1 && End(Body(after[1]).value) == 1
    requires after[3] == Printed(Cite(inner, "2", None), 1, 1) && after[3] != inner + ":" + "2"
    ensures IsCite(after, 1) && IsError(GradeOf(NestedContext(outer, inner, d), after, 1, mode))
  {
    var q, n := after[3], inner + ":" + "2";
    AfterAnchor(inner, after);
    PathOneLine(inner);
    FileOfTwo(n);
    OtherIsError(n, q, mode);
    GradeAt(NestedContext(outer, inner, d), after, 1, outer, n, q, mode);
  }

  lemma AfterAnchor(inner: string, after: seq<string>)
    requires PathOk(inner) && 2 <= |inner| <= 100 && |after| == 5 && after[2] == OPEN && after[3] == Printed(Cite(inner, "2", None), 1, 1)
    ensures AnchorAt(after, 1) == Anchor(after[3]) && Strip(after[3]) == after[3]
    ensures |after[3]| == |inner + ":" + "2"| && '\n' !in after[3]
  {
    PrintedOne(inner, after[3]);
    OpenReads();
    TickAnchorReads(after, 1);
    BodyTight(after[3]);
  }

  lemma GradeAt(ctx: Context, pieces: seq<string>, k: nat, path: string, line: string, anchor: string, mode: Mode)
    requires IsCite(pieces, k) && Body(pieces[k]).value.path == path && !ForeignPath(path)
    requires Start(Body(pieces[k]).value) == 1 && End(Body(pieces[k]).value) == 1
    requires path in ctx.files && FileLines(ctx.files[path]) == [line, "zz"]
    requires AnchorAt(pieces, k) == Anchor(anchor) && Strip(anchor) == anchor
    ensures GradeOf(ctx, pieces, k, mode) == GradeAnchored([line, "zz"], 1, 1, anchor, mode)
  {
  }

  lemma PrintedOne(inner: string, q: string)
    requires PathOk(inner) && q == Printed(Cite(inner, "2", None), 1, 1)
    ensures |q| == |inner + ":" + "2"| && '\n' !in q && Body(q).Some?
  {
    TwoIsTwo();
    PrintedReads(Cite(inner, "2", None), 1, 1);
  }

  lemma SampleText()
    ensures var d := "def foo"; |d| == 7 && OneLine(d) && Strip(d) == d && '\n' !in d && forall i :: 0 <= i < |d| ==> !Closes(d[i])
  {
    var d := "def foo";
    assert d[0] == 'd' && d[6] == 'o';
    assert RStrip(d) == d && LStrip(d) == d;
  }

  lemma PlainPath(c: char)
    requires 'a' <= c <= 'b'
    ensures PathOk([c] + ".py") && !ForeignPath([c] + ".py")
  {
    var p := [c] + ".py";
    var ext := "." + EXTENSIONS[4];
    assert ext == ".py" && |p| == 4 && p[1..] == ext;
    var t := p[..|p| - |ext|];
    assert t == [c] && PathChar(c);
    assert EndsWith(p, ext) && StemOk(t);
  }

  /** The documented promise fails: a concrete text on which the fixer rewrites a
      citation that the checker then refuses. */
  lemma FixThenCheckFails(mode: Mode)
    ensures exists ctx, text ::
              var before, after := Pieces(text), Pieces(FixedText(ctx, text));
              && 1 in Citations(before) && IsCite(before, 1) && RepairOf(ctx, before, 1).Rewrite?
              && IsCite(after, 1) && IsError(GradeOf(ctx, after, 1, mode))
  {
    var outer, inner := ['a'] + ".py", ['b'] + ".py";
    PlainPath('a');
    PlainPath('b');
    assert outer[0] == 'a' && inner[0] == 'b';
    SampleText();
    NestedFixFails(outer, inner, "def foo", mode);
  }
}
