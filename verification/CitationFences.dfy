/** Fence blanking commutes with the fixer's edits. */
module CitationFences {
  import opened PyText
  import opened CitationText
  import opened Splice

  function FlagAfter(lines: seq<string>, fenced: bool): bool
    decreases lines
  {
    if lines == [] then fenced else FlagAfter(lines[1..], fenced != FenceLine(lines[0]))
  }

  lemma {:induction false} StripAround(a: seq<string>, l: string, b: seq<string>, fenced: bool)
    ensures var f := FlagAfter(a, fenced);
            StripLines(a + [l] + b, fenced) == StripLines(a, fenced) + [StripLine(l, f)] + StripLines(b, f != FenceLine(l))
    decreases a
  {
    if a == [] {
      assert a + [l] + b == [l] + b && ([l] + b)[1..] == b;
    } else {
      assert (a + [l] + b)[0] == a[0] && (a + [l] + b)[1..] == a[1..] + [l] + b;
      StripAround(a[1..], l, b, fenced != FenceLine(a[0]));
    }
  }

  function Before(a: seq<string>): string { if a == [] then [] else Join(a, '\n') + "\n" }

  function After(b: seq<string>): string { if b == [] then [] else "\n" + Join(b, '\n') }

  lemma JoinAround(a: seq<string>, l: string, b: seq<string>)
    ensures Join(a + [l] + b, '\n') == Before(a) + l + After(b)
  {
    var tail := [l] + b;
    assert tail[1..] == b;
    assert Join(tail, '\n') == l + After(b);
    if a == [] {
      assert a + [l] + b == tail;
    } else {
      assert a + [l] + b == a + tail;
      JoinAppend(a, tail, '\n');
    }
  }

  lemma {:induction false} StripLengths(lines: seq<string>, fenced: bool)
    ensures |Join(StripLines(lines, fenced), '\n')| == |Join(lines, '\n')|
    ensures |Before(StripLines(lines, fenced))| == |Before(lines)|
    decreases lines
  {
    if lines != [] {
      var rest := StripLines(lines[1..], fenced != FenceLine(lines[0]));
      StripLengths(lines[1..], fenced != FenceLine(lines[0]));
      assert StripLines(lines, fenced)[1..] == rest;
    }
  }

  /** Blanking moves no line break. */
  lemma {:induction false} StripBreaks(lines: seq<string>, fenced: bool, i: nat)
    requires Free(lines, '\n') && i < |Join(lines, '\n')|
    ensures |Join(StripLines(lines, fenced), '\n')| == |Join(lines, '\n')|
    ensures Join(lines, '\n')[i] == '\n' <==> Join(StripLines(lines, fenced), '\n')[i] == '\n'
    decreases lines
  {
    StripLengths(lines, fenced);
    var l, f := lines[0], fenced != FenceLine(lines[0]);
    var rest := StripLines(lines[1..], f);
    assert StripLines(lines, fenced) == [StripLine(l, fenced)] + rest;
    StripLengths(lines[1..], f);
    LineBreaks(l, fenced);
    if |lines| == 1 {
      assert Join(lines, '\n') == l && Join([StripLine(l, fenced)] + rest, '\n') == StripLine(l, fenced);
    } else {
      assert ([StripLine(l, fenced)] + rest)[1..] == rest;
      HeadBreaks(l, StripLine(l, fenced), Join(lines[1..], '\n'), Join(rest, '\n'), i);
      if i > |l| { StripBreaks(lines[1..], f, i - |l| - 1); }
    }
  }

  lemma LineBreaks(l: string, fenced: bool)
    requires '\n' !in l
    ensures '\n' !in StripLine(l, fenced)
  {
  }

  lemma HeadBreaks(l: string, m: string, a: string, b: string, i: nat)
    requires |l| == |m| && |a| == |b| && '\n' !in l && '\n' !in m && i < |l + ['\n'] + a|
    ensures i <= |l| ==> ((l + ['\n'] + a)[i] == '\n' <==> (m + ['\n'] + b)[i] == '\n')
    ensures i > |l| ==> (l + ['\n'] + a)[i] == a[i - |l| - 1] && (m + ['\n'] + b)[i] == b[i - |l| - 1]
  {
    if i < |l| { assert l[i] in l && m[i] in m; }
  }

  lemma {:induction false} LStripAppend(u: string, w: string)
    requires w != [] && !IsSpace(w[0])
    ensures LStrip(u + w) == LStrip(u) + w
  {
    if u == [] {
      assert u + w == w;
    } else {
      assert (u + w)[0] == u[0] && (u + w)[1..] == u[1..] + w;
      if IsSpace(u[0]) { LStripAppend(u[1..], w); }
    }
  }

  /** Both spans open with a backtick and the same other character. */
  predicate SameOpening(x: string, y: string) {
    |x| >= 2 && |y| >= 2 && x[0] == TICK && y[0] == TICK && x[1] == y[1] != TICK
  }

  /** An edit of a citation never makes or unmakes a fence line. */
  lemma FenceStable(u: string, x: string, y: string, v: string)
    requires SameOpening(x, y)
    ensures FenceLine(u + (x + v)) == FenceLine(u + (y + v))
  {
    LStripAppend(u, x + v);
    LStripAppend(u, y + v);
    var t := LStrip(u);
    if |t| < 2 { NoFence(t, x + v); NoFence(t, y + v); } else { SameFence(t, x + v, y + v); }
  }

  /** Less than two characters, a backtick, and something else: no fence. */
  lemma NoFence(t: string, w: string)
    requires |t| < 2 && |w| >= 2 && w[0] == TICK && w[1] != TICK
    ensures !(|t + w| >= 3 && (t + w)[..3] == "```")
  {
    if |t + w| >= 3 { assert (t + w)[..3][|t| + 1] == w[1]; }
  }

  lemma SameFence(t: string, w: string, z: string)
    requires |t| >= 2 && |w| >= 1 && |z| >= 1 && w[0] == z[0]
    ensures (t + w)[..3] == (t + z)[..3]
  {
  }

  /** An edit of a visible citation. */
  ghost predicate Good(stripped: string, x: Edit) {
    && x.s <= x.e <= |stripped|
    && SameOpening(stripped[x.s..x.e], x.repl)
    && '\n' !in stripped[x.s..x.e] && '\n' !in x.repl
  }

  lemma LinesAround(a: string, x: string, b: string) returns (before: seq<string>, u: string, v: string, after: seq<string>)
    requires '\n' !in x
    ensures SplitOn(a + (x + b), '\n') == before + [u + (x + v)] + after
    ensures |a| == |Before(before)| + |u|
    ensures forall y: string :: '\n' !in y ==> SplitOn(a + (y + b), '\n') == before + [u + (y + v)] + after
  {
    var sa, sb := SplitOn(a, '\n'), SplitOn(b, '\n');
    before, u, v, after := sa[..|sa| - 1], sa[|sa| - 1], sb[0], sb[1..];
    JoinSplit(a, '\n');
    JoinAround(before, u, []);
    assert sa == before + [u] + [];
    forall y: string | '\n' !in y ensures SplitOn(a + (y + b), '\n') == before + [u + (y + v)] + after {
      SplitFree(y, '\n');
      SplitAppend(y, b, '\n');
      SplitAppend(a, y + b, '\n');
    }
  }

  lemma VisibleSpan(text: string, x: Edit)
    requires |StripFenced(text)| == |text| && x.s <= x.e <= |text|
    requires '\n' !in StripFenced(text)[x.s..x.e]
    ensures '\n' !in text[x.s..x.e]
  {
    JoinSplit(text, '\n');
    forall i | x.s <= i < x.e ensures text[i] != '\n' {
      StripBreaks(SplitOn(text, '\n'), false, i);
      assert StripFenced(text)[i] == StripFenced(text)[x.s..x.e][i - x.s];
    }
  }

  lemma StripLengthText(text: string)
    ensures |StripFenced(text)| == |text|
  {
    JoinSplit(text, '\n');
    StripLengths(SplitOn(text, '\n'), false);
  }

  lemma LineKept(l: string, fenced: bool, i: nat)
    requires i < |l| && StripLine(l, fenced)[i] == TICK
    ensures StripLine(l, fenced) == l && !FenceLine(l) && !fenced
  {
  }

  lemma MiddleAt(p: string, u: string, x: string, v: string, q: string, y: string)
    ensures var s := p + (u + (x + v)) + q;
            var k := |p| + |u|;
            && s[k..k + |x|] == x
            && s[..k] + y + s[k + |x|..] == p + (u + (y + v)) + q
  {
    var s := p + (u + (x + v)) + q;
    var k := |p| + |u|;
    Assoc(u, x, v);
    Assoc(p, u, x + v);
    Assoc(p + u, x + v, q);
    Assoc(x, v, q);
    assert s == (p + u) + (x + (v + q));
    assert s[..k] == p + u;
    assert s[k..] == x + (v + q);
    assert s[k..k + |x|] == s[k..][..|x|] == x;
    assert s[k + |x|..] == s[k..][|x|..] == v + q;
    Assoc(p + u, y, v + q);
    Assoc(y, v, q);
    Assoc(p + u, y + v, q);
    Assoc(p, u, y + v);
  }

  function Above(before: seq<string>): string { Before(StripLines(before, false)) }

  /** What follows a line that is a fence, or not, in the blanked copy. */
  function Below(before: seq<string>, after: seq<string>, fence: bool): string {
    After(StripLines(after, FlagAfter(before, false) != fence))
  }

  lemma BlankedText(text: string, before: seq<string>, l: string, after: seq<string>)
    requires SplitOn(text, '\n') == before + [l] + after
    ensures StripFenced(text) == Above(before) + StripLine(l, FlagAfter(before, false)) + Below(before, after, FenceLine(l))
    ensures |Above(before)| == |Before(before)|
  {
    var f := FlagAfter(before, false);
    StripLengths(before, false);
    StripAround(before, l, after, false);
    JoinAround(StripLines(before, false), StripLine(l, f), StripLines(after, f != FenceLine(l)));
  }

  lemma StripEditLine(text: string, fixed: string, before: seq<string>, u: string, x: string, y: string, v: string, after: seq<string>, k: nat)
    requires SplitOn(text, '\n') == before + [u + (x + v)] + after && SplitOn(fixed, '\n') == before + [u + (y + v)] + after
    requires k == |Before(before)| + |u| && |x| >= 2
    requires k + |x| <= |StripFenced(text)| && SameOpening(StripFenced(text)[k..k + |x|], y)
    ensures StripFenced(fixed) == StripFenced(text)[..k] + y + StripFenced(text)[k + |x|..]
  {
    var l, m := u + (x + v), u + (y + v);
    var p, q, f := Above(before), Below(before, after, FenceLine(l)), FlagAfter(before, false);
    BlankedText(text, before, l, after);
    EditVisible(p, u, x, v, q, f, y, StripFenced(text), k);
    BlankedText(fixed, before, m, after);
    assert StripFenced(fixed) == p + StripLine(m, f) + q;
  }

  /** A line that shows a citation in the blanked copy is not blanked, before or after
      the citation is edited. */
  lemma EditVisible(p: string, u: string, x: string, v: string, q: string, f: bool, y: string, s: string, k: nat)
    requires s == p + StripLine(u + (x + v), f) + q && k == |p| + |u|
    requires |x| >= 2 && k + |x| <= |s| && SameOpening(s[k..k + |x|], y)
    ensures FenceLine(u + (y + v)) == FenceLine(u + (x + v))
    ensures p + StripLine(u + (y + v), f) + q == s[..k] + y + s[k + |x|..]
  {
    var l := u + (x + v);
    assert s[k] == s[k..k + |x|][0] == TICK;
    assert s[k] == StripLine(l, f)[|u|];
    LineKept(l, f, |u|);
    MiddleAt(p, u, x, v, q, y);
    FenceStable(u, x, y, v);
  }

  /** One edit: blanking the edited text is editing the blanked text. */
  lemma StripEdit(text: string, x: Edit)
    requires Good(StripFenced(text), x)
    ensures |StripFenced(text)| == |text|
    ensures StripFenced(EditOne(text, x)) == EditOne(StripFenced(text), x)
  {
    StripLengthText(text);
    VisibleSpan(text, x);
    CutThree(text, x);
    StripEditAt(text, EditOne(text, x), text[..x.s], text[x.s..x.e], x.repl, text[x.e..]);
  }

  lemma StripEditAt(text: string, fixed: string, front: string, was: string, now: string, rest: string)
    requires text == front + (was + rest) && fixed == front + (now + rest)
    requires '\n' !in was && '\n' !in now && |was| >= 2 && |StripFenced(text)| == |text|
    requires SameOpening(StripFenced(text)[|front|..|front| + |was|], now)
    ensures StripFenced(fixed) == StripFenced(text)[..|front|] + now + StripFenced(text)[|front| + |was|..]
  {
    var before, u, v, after := LinesAround(front, was, rest);
    StripEditLine(text, fixed, before, u, was, now, v, after, |front|);
  }

  lemma CutThree(text: string, x: Edit)
    requires x.s <= x.e <= |text|
    ensures text == text[..x.s] + (text[x.s..x.e] + text[x.e..])
    ensures EditOne(text, x) == text[..x.s] + (x.repl + text[x.e..])
  {
    Halves(text, x.s, x.e, |text|);
    Halves(text, 0, x.s, |text|);
    Assoc(text[..x.s], x.repl, text[x.e..]);
  }

  lemma GoodStays(s: string, x: Edit, e: Edit)
    requires Good(s, x) && Good(s, e) && e.e <= x.s
    ensures Good(EditOne(s, x), e)
  {
    var front, back := s[..x.s], x.repl + s[x.e..];
    Assoc(front, x.repl, s[x.e..]);
    assert EditOne(s, x) == front + back;
    assert (front + back)[e.s..e.e] == front[e.s..e.e] == s[e.s..e.e];
  }

  /** All the edits: detecting citations on the blanked copy and editing the original
      gives the text whose blanked copy is the edited blanked copy. */
  lemma {:induction false} StripEdits(text: string, edits: seq<Edit>)
    requires Ordered(edits, 0, |text|)
    requires forall i :: 0 <= i < |edits| ==> Good(StripFenced(text), edits[i])
    ensures |StripFenced(text)| == |text|
    ensures StripFenced(Splice.Splice(text, 0, edits)) == Splice.Splice(StripFenced(text), 0, edits)
    decreases |edits|
  {
    var s := StripFenced(text);
    StripLengthText(text);
    if edits == [] {
      assert text[0..] == text && s[0..] == s;
    } else {
      var n := |edits| - 1;
      var x, init := edits[n], edits[..n];
      assert edits == init + [x];
      SpliceLast(text, 0, init, x);
      SpliceLast(s, 0, init, x);
      StripEdit(text, x);
      OrderedEnds(edits, 0, |text|);
      forall i | 0 <= i < n ensures Good(EditOne(s, x), init[i]) {
        GoodStays(s, x, edits[i]);
      }
      StripEdits(EditOne(text, x), init);
    }
  }
}
