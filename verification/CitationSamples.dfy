/** Two texts that tell the exact conditions apart from the simple one: an unstable
    citation that passes all the same, and a second run that edits again. */
module CitationSamples {
  import opened PyText
  import opened CitationText
  import opened CitationGate
  import opened CitationFacts
  import opened CitationFix
  import opened CitationNested
  import opened CitationExact
  import opened CitationAnchors
  import opened CitationVerdicts

  /** The two texts of the inner citation, before and after the fix. */
  function Was(inner: string): string { inner + ":" + "2" }

  function Now(inner: string): string { inner + ":" + "1" }

  lemma Texts(inner: string)
    requires PathOk(inner)
    ensures |Was(inner)| == |Now(inner)| == |inner| + 2 && Was(inner) != Now(inner)
    ensures OneLine(Was(inner)) && OneLine(Now(inner)) && '\n' !in Was(inner) && '\n' !in Now(inner)
    ensures Now(inner) == Printed(Cite(inner, "2", None), 1, 1)
  {
    TwoIsTwo();
    PathOneLine(inner);
    PathChars(inner);
    forall i | 0 <= i < |inner| ensures !LineBreak(inner[i]) { assert PathChar(inner[i]); }
    assert Was(inner)[|inner| + 1] == '2' && Now(inner)[|inner| + 1] == '1';
    NoBreak(Now(inner));
  }

  lemma NoBreak(s: string)
    requires OneLine(s)
    ensures '\n' !in s
  {
  }

  function Files(outer: string, inner: string, d: string, body: string): Context {
    Context(false, map[outer := body, inner := d + ZZ])
  }

  /** In any file whose line 1 alone holds the old text, the outer citation moves from
      line 2 to line 1 and the inner one likewise. */
  lemma BothMove(outer: string, inner: string, d: string, body: string, lines: seq<string>)
    requires Sample(outer, inner, d) && FileLines(body) == lines && |lines| == 2
    requires !InRange(lines, 2, 2, Was(inner)) && Hits(Join(lines, '\n'), Was(inner)) == [1]
    ensures var pieces, ctx := NestedPieces(outer, inner, d), Files(outer, inner, d, body);
            && Pieces(Join(pieces, TICK)) == pieces && Citations(pieces) == [1, 3] && IsCite(pieces, 1) && IsCite(pieces, 3)
            && RepairOf(ctx, pieces, 1).Rewrite? && Named(ctx, pieces, 1) == (1, 1) && Body(pieces[1]).value.path == outer
            && NewBody(ctx, pieces, 3) == Some(Now(inner)) && RepairOf(ctx, pieces, 3).Rewrite? && TickAnchored(pieces, 1)
  {
    NestedFree(outer, inner, d);
    SinglePieces(NestedPieces(outer, inner, d));
    NestedCites(outer, inner, d);
    OuterMoves(outer, inner, d, body, lines);
    InnerMoves(outer, inner, d, body);
  }

  lemma OuterMoves(outer: string, inner: string, d: string, body: string, lines: seq<string>)
    requires Sample(outer, inner, d) && FileLines(body) == lines && |lines| == 2
    requires !InRange(lines, 2, 2, Was(inner)) && Hits(Join(lines, '\n'), Was(inner)) == [1]
    ensures var pieces, ctx := NestedPieces(outer, inner, d), Files(outer, inner, d, body);
            IsCite(pieces, 1) && RepairOf(ctx, pieces, 1).Rewrite? && Named(ctx, pieces, 1) == (1, 1) && TickAnchored(pieces, 1)
  {
    OuterRepair(Files(outer, inner, d, body), outer, inner, d, lines);
    Texts(inner);
    MovesToOne(lines, Was(inner));
  }

  lemma InnerMoves(outer: string, inner: string, d: string, body: string)
    requires Sample(outer, inner, d)
    ensures var pieces, ctx := NestedPieces(outer, inner, d), Files(outer, inner, d, body);
            IsCite(pieces, 3) && RepairOf(ctx, pieces, 3).Rewrite? && NewBody(ctx, pieces, 3) == Some(Now(inner))
  {
    NestedCites(outer, inner, d);
    InnerRepair(Files(outer, inner, d, body), outer, inner, d);
    ReanchorsToOne(d);
    Texts(inner);
  }

  lemma MovesToOne(lines: seq<string>, n: string)
    requires |lines| == 2 && '\n' !in n && !InRange(lines, 2, 2, n) && Hits(Join(lines, '\n'), n) == [1]
    ensures var r := RepairAnchored(lines, 2, 2, n); r.Rewrite? && r.start == 1 && r.end == 1
  {
    CountZero(n, '\n');
  }

  // ------------------------------------------------------- unstable, but it passes

  /** A text without line breaks does not occur across one. */
  lemma BreakParts(body: string, n: string, q: nat, b: nat)
    requires '\n' !in n && q <= b < q + |n| && b < |body| && body[b] == '\n'
    ensures !Occurs(body, n, q)
  {
    if q + |n| <= |body| { assert body[q..q + |n|][b - q] == '\n'; }
  }

  /** A text of its first line starts on line 1 only, if it is longer than the second. */
  lemma FirstLineOnly(x: string, n: string)
    requires '\n' !in x && '\n' !in n && |n| >= 4 && Holds(x, n)
    ensures Hits(x + ZZ, n) == [1]
  {
    var body := x + ZZ;
    var p :| 0 <= p <= |x| && Occurs(x, n, p);
    assert body[p..p + |n|] == x[p..p + |n|];
    forall q: nat | q <= |body| && Occurs(body, n, q) ensures LineAt(body, q) == 1 {
      if q + |n| > |x| { BreakParts(body, n, q, |x|); }
      assert body[..q] == x[..q];
      CountZero(x[..q], '\n');
    }
    HitsOne(body, n, p, 1);
  }

  function Both(inner: string): string { Was(inner) + " " + Now(inner) }

  lemma BothParts(inner: string)
    requires PathOk(inner) && 2 <= |inner|
    ensures OneLine(Both(inner)) && '\n' !in Both(inner)
    ensures Occurs(Both(inner), Was(inner), 0) && Occurs(Both(inner), Now(inner), |Was(inner)| + 1)
  {
    Texts(inner);
    var x := Both(inner);
    assert x[0..|Was(inner)|] == Was(inner);
    assert x[|Was(inner)| + 1..] == Now(inner);
    assert !LineBreak(' ');
  }

  /** With both texts on line 1 of the cited file, the outer citation passes after the
      fix although its anchor has been rewritten. */
  lemma UnstableButPasses(outer: string, inner: string, d: string, mode: Mode)
    requires Sample(outer, inner, d)
    ensures var text, ctx := Join(NestedPieces(outer, inner, d), TICK), Files(outer, inner, d, Both(inner) + ZZ);
            var before, after := Pieces(text), Pieces(FixedText(ctx, text));
            && IsCite(before, 1) && RepairOf(ctx, before, 1).Rewrite? && !Stable(ctx, before, 1)
            && IsCite(after, 1) && GradeOf(ctx, after, 1, mode) == PassInRange
  {
    var x := Both(inner);
    BothLine(inner);
    BothMove(outer, inner, d, x + ZZ, [x, "zz"]);
    Texts(inner);
    FixPassesExact(Files(outer, inner, d, x + ZZ), Join(NestedPieces(outer, inner, d), TICK), 1, mode);
  }

  lemma BothLine(inner: string)
    requires PathOk(inner) && 2 <= |inner|
    ensures var lines := [Both(inner), "zz"];
            && FileLines(Both(inner) + ZZ) == lines && !InRange(lines, 2, 2, Was(inner))
            && Hits(Join(lines, '\n'), Was(inner)) == [1] && InRange(lines, 1, 1, Now(inner))
  {
    var x, n := Both(inner), Was(inner);
    Texts(inner);
    BothParts(inner);
    assert Holds(x, n);
    FileOfTwo(x);
    TwoLineBody(x);
    SecondIsZz(x, n);
    FirstLineOnly(x, n);
    FirstIn(x, "zz", Now(inner), |n| + 1);
  }

  lemma SecondIsZz(x: string, n: string)
    requires |n| >= 4
    ensures !InRange([x, "zz"], 2, 2, n)
  {
    assert Slice([x, "zz"], 1, 2) == ["zz"] && Join(["zz"], '\n') == "zz";
  }

  lemma FirstIn(x: string, y: string, m: string, p: nat)
    requires p <= |x| && Occurs(x, m, p)
    ensures InRange([x, y], 1, 1, m)
  {
    assert Slice([x, y], 0, 1) == [x] && Join([x], '\n') == x;
  }

  // ------------------------------------------------------------ a second run edits

  lemma {:induction false} LinesOf(x: string, y: string, line: string)
    requires OneLine(x) && OneLine(y) && y != []
    ensures SplitLinesFrom(x + ['\n'] + y, line) == [line + x, y]
    decreases x
  {
    var s := x + ['\n'] + y;
    if x == [] {
      OneLineRest(y, []);
      assert s[0] == '\n' && s[1..] == y && [] + y == y;
      assert line + x == line;
    } else {
      assert s[0] == x[0] && s[1..] == x[1..] + ['\n'] + y;
      LinesOf(x[1..], y, line + [x[0]]);
      assert line + [x[0]] + x[1..] == line + x;
    }
  }

  lemma {:induction false} OneLineRest(y: string, line: string)
    requires OneLine(y) && line + y != []
    ensures SplitLinesFrom(y, line) == [line + y]
    decreases y
  {
    if y == [] {
      assert line + y == line;
    } else {
      OneLineRest(y[1..], line + [y[0]]);
      assert line + [y[0]] + y[1..] == line + y;
    }
  }

  /** A text as long as either of two lines starts only where it is one of them. */
  lemma OccursLine(x: string, y: string, t: string, p: nat)
    requires |x| == |y| == |t| && t != [] && '\n' !in t && Occurs(x + ['\n'] + y, t, p)
    ensures (p == 0 && t == x) || (p == |x| + 1 && t == y)
  {
    var body := x + ['\n'] + y;
    if 0 < p <= |x| { BreakParts(body, t, p, |x|); }
    if p == 0 {
      assert body[0..|t|] == x;
    } else {
      assert body[|x| + 1..|x| + 1 + |t|] == y;
    }
  }

  lemma LineHits(x: string, y: string)
    requires |x| == |y| >= 4 && '\n' !in x && '\n' !in y && x != y
    ensures Hits(x + ['\n'] + y, x) == [1] && Hits(x + ['\n'] + y, y) == [2]
  {
    var body := x + ['\n'] + y;
    assert body[0..|x|] == x && body[|x| + 1..|x| + 1 + |y|] == y && body[..|x| + 1] == x + ['\n'] && body[..0] == [];
    CountAppend(x, ['\n'], '\n');
    CountZero(x, '\n');
    assert LineAt(body, |x| + 1) == 2 by { assert ['\n'][1..] == []; }
    forall p: nat | p <= |body| && Occurs(body, x, p) ensures LineAt(body, p) == 1 { OccursLine(x, y, x, p); }
    forall p: nat | p <= |body| && Occurs(body, y, p) ensures LineAt(body, p) == 2 { OccursLine(x, y, y, p); }
    HitsOne(body, x, 0, 1);
    HitsOne(body, y, |x| + 1, 2);
  }

  lemma LinesApart(x: string, y: string)
    requires |x| == |y| && x != y
    ensures !InRange([x, y], 2, 2, x) && !InRange([x, y], 1, 1, y)
  {
    assert Slice([x, y], 1, 2) == [y] && Join([y], '\n') == y;
    assert Slice([x, y], 0, 1) == [x] && Join([x], '\n') == x;
    NotIn(x, y);
    NotIn(y, x);
  }

  lemma NotIn(x: string, y: string)
    requires |x| == |y| && x != y
    ensures !Holds(x, y)
  {
    forall p | 0 <= p <= |x| ensures !Occurs(x, y, p) { if p == 0 { assert x[0..|y|] == x; } }
  }

  /** With the old text on line 1 and the new one on line 2, the first run moves the
      outer citation to line 1 and the second moves it again. */
  lemma SecondRunEdits(outer: string, inner: string, d: string)
    requires Sample(outer, inner, d)
    ensures var text, ctx := Join(NestedPieces(outer, inner, d), TICK), Files(outer, inner, d, Was(inner) + ['\n'] + Now(inner));
            FixedText(ctx, FixedText(ctx, text)) != FixedText(ctx, text)
  {
    var pieces, body := NestedPieces(outer, inner, d), Was(inner) + ['\n'] + Now(inner);
    TwoLines(inner);
    BothMove(outer, inner, d, body, [Was(inner), Now(inner)]);
    Texts(inner);
    AgainAt(Files(outer, inner, d, body), pieces, inner);
    FixTwiceExact(Files(outer, inner, d, body), Join(pieces, TICK));
  }

  lemma TwoLines(inner: string)
    requires PathOk(inner) && 2 <= |inner|
    ensures var lines := [Was(inner), Now(inner)];
            && FileLines(Was(inner) + ['\n'] + Now(inner)) == lines
            && !InRange(lines, 2, 2, Was(inner)) && Hits(Join(lines, '\n'), Was(inner)) == [1]
            && !InRange(lines, 1, 1, Now(inner)) && Hits(Join(lines, '\n'), Now(inner)) == [2]
  {
    var n, m := Was(inner), Now(inner);
    Texts(inner);
    LinesOf(n, m, []);
    assert [] + n == n;
    assert Join([n, m], '\n') == n + ['\n'] + m by { assert [n, m][1..] == [m]; }
    LineHits(n, m);
    LinesApart(n, m);
  }

  lemma AgainAt(ctx: Context, pieces: seq<string>, inner: string)
    requires IsCite(pieces, 1) && TickAnchored(pieces, 1) && 3 in Citations(pieces) && IsCite(pieces, 3)
    requires NewBody(ctx, pieces, 3) == Some(Now(inner)) && 4 <= |Now(inner)| <= 120 && '\n' !in Now(inner)
    requires Judged(ctx, Body(pieces[1]).value.path) && Named(ctx, pieces, 1) == (1, 1)
    requires var lines := FileLines(ctx.files[Body(pieces[1]).value.path]);
             |lines| == 2 && !InRange(lines, 1, 1, Now(inner)) && Hits(Join(lines, '\n'), Now(inner)) == [2]
    ensures EditsAgain(ctx, pieces, 1)
  {
    CountZero(Now(inner), '\n');
  }

  lemma SomeSample() returns (outer: string, inner: string, d: string)
    ensures Sample(outer, inner, d)
  {
    outer, inner, d := ['a'] + ".py", ['b'] + ".py", "def foo";
    PlainPath('a');
    PlainPath('b');
    assert outer[0] == 'a' && inner[0] == 'b';
    SampleText();
  }

  /** So running the fixer twice is not running it once. */
  lemma FixTwiceFails()
    ensures exists ctx, text :: FixedText(ctx, FixedText(ctx, text)) != FixedText(ctx, text)
  {
    var outer, inner, d := SomeSample();
    SecondRunEdits(outer, inner, d);
  }

  /** And stability is not needed to pass. */
  lemma StableNotNeeded(mode: Mode)
    ensures exists ctx, text ::
              var before, after := Pieces(text), Pieces(FixedText(ctx, text));
              && IsCite(before, 1) && RepairOf(ctx, before, 1).Rewrite? && !Stable(ctx, before, 1)
              && IsCite(after, 1) && GradeOf(ctx, after, 1, mode) == PassInRange
  {
    var outer, inner, d := SomeSample();
    UnstableButPasses(outer, inner, d, mode);
  }

  // -------------------------------------------------------- a drifted citation moves

  /** In a whole text: a citation of a local file whose anchor's text has moved is
      rewritten in place to the nearest line that starts it. */
  lemma DriftRewritten(ctx: Context, text: string, k: nat, t: string, h: nat, e: nat)
    requires k in Citations(Pieces(text)) && IsCite(Pieces(text), k) && Anchors(Behind(Pieces(text), k), t)
    requires var c := Body(Pieces(text)[k]).value;
             Local(ctx, c.path) && MovesTo(FileLines(ctx.files[c.path]), Start(c), End(c), Strip(t), h, e)
    ensures var after := Pieces(FixedText(ctx, text));
            k < |after| && after[k] == Printed(Body(Pieces(text)[k]).value, h, e) && Citations(after) == Citations(Pieces(text))
  {
    var pieces := Pieces(text);
    PiecesFree(text);
    RewriteExact(ctx, pieces, k, h, e);
    FixedTextPieces(ctx, text);
    PieceAfter(ctx, pieces, k);
  }

  /** A citation, a line break, and its anchor in parentheses on the next line. */
  function WrappedPieces(path: string, d: string): seq<string> { ["see ", Was(path), "\n(\"" + d + "\")"] }

  lemma WrappedReads(path: string, d: string)
    requires PathOk(path) && AnchorText(d) && '\n' !in d
    ensures var pieces := WrappedPieces(path, d); Free(pieces, TICK) && Citations(pieces) == [1] && Anchors(pieces[2], d)
  {
    var pieces := WrappedPieces(path, d);
    TwoIsTwo();
    LineReads(path, "2");
    SpanFree(path);
    WrappedAnchor(d);
    assert pieces[1] == path + ":" + "2";
    assert forall i :: 0 <= i < |pieces| ==> TICK !in pieces[i];
    OneFlag(Flags(pieces));
  }

  lemma OneFlag(flags: seq<bool>)
    requires |flags| == 3 && flags[1]
    ensures Scan(flags, 1) == [1]
  {
    assert Scan(flags, 3) == [];
  }

  lemma WrappedAnchor(d: string)
    requires AnchorText(d)
    ensures var rest := "\n(\"" + d + "\")"; TICK !in rest && Anchors(rest, d)
  {
    var rest := "\n(\"" + d + "\")";
    assert forall i :: 0 <= i < |d| ==> d[i] != TICK;
    assert rest == ("\n" + "(" + "" + ['"']) + (d + (['"'] + ")"));
    assert AnchorForm(rest, "\n", "", '"', d, '"', ")");
  }

  lemma WrappedText(path: string, d: string)
    requires PathOk(path) && AnchorText(d) && '\n' !in d
    ensures Pieces(Join(WrappedPieces(path, d), TICK)) == WrappedPieces(path, d)
  {
    var first, second := "see " + [TICK] + Was(path) + [TICK], "(\"" + d + "\")";
    WrappedReads(path, d);
    WrappedJoin(path, d);
    TwoLinesSplit(first, second);
    assert first[0] == 's' && second[0] == '(';
    UnfencedLines(first, second);
    SplitJoin(WrappedPieces(path, d), TICK);
  }

  lemma WrappedJoin(path: string, d: string)
    requires PathOk(path) && '\n' !in d
    ensures var first, second := "see " + [TICK] + Was(path) + [TICK], "(\"" + d + "\")";
            Join(WrappedPieces(path, d), TICK) == first + ['\n'] + second && '\n' !in first && '\n' !in second
  {
    var first, second := "see " + [TICK] + Was(path) + [TICK], "(\"" + d + "\")";
    SpanFree(path);
    ThreeJoined("see ", Was(path), "\n(\"" + d + "\")");
    assert "\n(\"" == ['\n'] + "(\"";
    BreakFirst("(\"", d, "\")");
    Assoc(first, ['\n'], second);
    FreeSum("see ", [TICK], Was(path), [TICK]);
    FreeSum("(\"", d, "\")", "");
    assert second + "" == second;
  }

  lemma BreakFirst(a: string, b: string, c: string)
    ensures (['\n'] + a) + b + c == ['\n'] + (a + b + c)
  {
  }

  lemma FreeSum(a: string, b: string, c: string, e: string)
    ensures '\n' !in a + b + c + e <==> '\n' !in a && '\n' !in b && '\n' !in c && '\n' !in e
  {
  }

  lemma ThreeJoined(a: string, b: string, c: string)
    ensures Join([a, b, c], TICK) == a + [TICK] + b + [TICK] + c
  {
    assert [a, b, c][1..] == [b, c] && [b, c][1..] == [c];
    assert Join([b, c], TICK) == b + [TICK] + c;
  }

  lemma UnfencedLines(a: string, b: string)
    requires a != [] && b != [] && !IsSpace(a[0]) && !IsSpace(b[0]) && a[0] != TICK && b[0] != TICK
    ensures StripLines([a, b], false) == [a, b] && Join([a, b], '\n') == a + ['\n'] + b
  {
    assert LStrip(a) == a && LStrip(b) == b && !FenceLine(a) && !FenceLine(b);
    assert [a, b][1..] == [b];
    assert StripLines([b], false) == [b];
  }

  lemma TwoLinesSplit(a: string, b: string)
    requires '\n' !in a && '\n' !in b
    ensures SplitOn(a + ['\n'] + b, '\n') == [a, b]
  {
    assert [a, b][1..] == [b] && Join([a, b], '\n') == a + ['\n'] + b;
    SplitJoin([a, b], '\n');
  }

  /** When the quoted text is line 1 of the cited file, the citation of line 2 is
      rewritten to line 1. */
  lemma WrappedMoves(path: string, d: string)
    requires PathOk(path) && !ForeignPath(path) && AnchorText(d) && OneLine(d) && Strip(d) == d && '\n' !in d
    ensures var ctx, text := Context(false, map[path := d + ZZ]), Join(WrappedPieces(path, d), TICK);
            var after := Pieces(FixedText(ctx, text));
            1 < |after| && after[1] == Now(path) && Citations(after) == [1]
  {
    var ctx, pieces := Context(false, map[path := d + ZZ]), WrappedPieces(path, d);
    WrappedText(path, d);
    WrappedReads(path, d);
    TwoIsTwo();
    LineReads(path, "2");
    FileOfTwo(d);
    ReanchorsToOne(d);
    MovesExact([d, "zz"], 2, 2, d, 1, 1);
    assert pieces[2..] == [pieces[2]] && Behind(pieces, 1) == pieces[2];
    PathsExact(ctx, path);
    DriftRewritten(ctx, Join(pieces, TICK), 1, d, 1, 1);
    Texts(path);
  }
}
