/** Exactly which zero-context diffs the reader reads as what they mean. */
module HunkExact {
  import opened PyText
  import opened HunkLines

  function NewLines(h: Hunk): set<nat> { Range(h.newStart, |h.added|) }

  function LinesUnder(added: Added, path: string): set<nat> { if path in added then added[path] else {} }

  /** Each hunk adds lines that nothing before it has added. */
  ghost predicate Fresh(hs: seq<Hunk>, done: set<nat>)
    decreases hs
  {
    hs == [] || (hs[0].added != [] && NewLines(hs[0]) !! done && Fresh(hs[1..], done + NewLines(hs[0])))
  }

  /** Under `path`, what was recorded, and maybe the lines of these hunks. */
  function Reach(done: set<nat>, hs: seq<Hunk>): set<nat>
    decreases hs
  {
    if hs == [] then done else Reach(done + NewLines(hs[0]), hs[1..])
  }

  lemma ContentNoHeader(h: Hunk, l: string)
    requires l in Content(h)
    ensures HunkHeader(l).None?
  {
    var minus, plus := Signed('-', h.removed), Signed('+', h.added);
    if l in minus {
      var i :| 0 <= i < |minus| && minus[i] == l;
      NotAHunkHeader(l);
    } else if l in plus {
      var i :| 0 <= i < |plus| && plus[i] == l;
      NotAHunkHeader(l);
    } else {
      MarkerInert();
      assert l == MARKER;
    }
  }

  /** Lines that are no hunk header record nothing. */
  lemma {:induction false} RecordsNothing(st: State, lines: seq<string>)
    requires st.State? && st.skip == 0 && forall l :: l in lines ==> HunkHeader(l).None?
    ensures var r := Run(st, lines); r.State? ==> r.skip == 0 && r.added == st.added
    decreases lines
  {
    if lines != [] {
      assert HunkHeader(lines[0]).None?;
      var nx := Step(st, lines[0]);
      if nx.Died? { StaysDead(lines[1..]); } else { RecordsNothing(nx, lines[1..]); }
    }
  }

  /** One hunk read under any path records at most its own lines, and under its path only. */
  lemma AnyHunk(st: State, h: Hunk, path: string)
    requires st.State? && st.skip == 0 && path != []
    ensures var r := Run(st, HunkText(h));
            r.State? ==>
              && r.skip == 0 && LinesUnder(st.added, path) <= LinesUnder(r.added, path) <= LinesUnder(st.added, path) + NewLines(h)
              && (st.path != Some(path) ==> LinesUnder(r.added, path) == LinesUnder(st.added, path))
  {
    if st.path.Some? && st.path.value != [] {
      HunkExact(st.path.value, st.added, h);
    } else {
      HeaderStep(st.path, st.added, h);
      assert HunkText(h)[0] == HeaderLine(h) && HunkText(h)[1..] == Content(h);
      forall l | l in Content(h) ensures HunkHeader(l).None? { ContentNoHeader(h, l); }
      RecordsNothing(st, Content(h));
    }
  }

  lemma {:induction false} AnyHunks(st: State, hs: seq<Hunk>, path: string)
    requires st.State? && st.skip == 0 && path != []
    ensures var r := Run(st, HunkTexts(hs)); r.State? ==> LinesUnder(r.added, path) <= Reach(LinesUnder(st.added, path), hs)
    decreases hs
  {
    if hs != [] {
      AnyHunk(st, hs[0], path);
      RunAppend(st, HunkText(hs[0]), HunkTexts(hs[1..]));
      var nx := Run(st, HunkText(hs[0]));
      if nx.State? {
        AnyHunks(nx, hs[1..], path);
        ReachMore(LinesUnder(nx.added, path), LinesUnder(st.added, path) + NewLines(hs[0]), hs[1..]);
      } else {
        StaysDead(HunkTexts(hs[1..]));
      }
    }
  }

  lemma {:induction false} ReachMore(a: set<nat>, b: set<nat>, hs: seq<Hunk>)
    requires a <= b
    ensures Reach(a, hs) <= Reach(b, hs) && b <= Reach(b, hs)
    decreases hs
  {
    if hs != [] { ReachMore(a + NewLines(hs[0]), b + NewLines(hs[0]), hs[1..]); }
  }

  /** A line that fresh hunks do not add again is not reached by them. */
  lemma {:induction false} FreshMisses(hs: seq<Hunk>, done: set<nat>, lost: set<nat>, a: set<nat>)
    requires Fresh(hs, done) && lost <= done && a !! lost
    ensures Reach(a, hs) !! lost
    decreases hs
  {
    if hs != [] { FreshMisses(hs[1..], done + NewLines(hs[0]), lost, a + NewLines(hs[0])); }
  }

  lemma {:induction false} MeanReaches(added: Added, path: string, hs: seq<Hunk>)
    ensures LinesUnder(HunksMean(added, path, hs), path) == Reach(LinesUnder(added, path), hs)
    decreases hs
  {
    if hs != [] { MeanReaches(Record(added, path, NewLines(hs[0])), path, hs[1..]); }
  }

  /** When the first hunk leads the reader away from the path, the lines of the second
      are lost to the path for good. */
  lemma Strays(path: string, added: Added, hs: seq<Hunk>)
    requires path != [] && |hs| > 1 && Fresh(hs, LinesUnder(added, path)) && !Keeps(path, hs[0])
    ensures Outcome(Run(State(Some(path), 0, added), HunkTexts(hs))) != Some(HunksMean(added, path, hs))
  {
    var st := State(Some(path), 0, added);
    var nx := Run(st, HunkText(hs[0]));
    HunkExact(path, added, hs[0]);
    RunAppend(st, HunkText(hs[0]), HunkTexts(hs[1..]));
    if nx.Died? {
      StaysDead(HunkTexts(hs[1..]));
    } else {
      StrayPath(path, added, hs[0]);
      LostSecond(nx, path, hs[1..]);
      MeanReaches(nx.added, path, hs[1..]);
      ReachMore({}, LinesUnder(nx.added, path) + NewLines(hs[1]), hs[2..]);
      assert hs[1..][0] == hs[1] && hs[1..][1..] == hs[2..];
      assert hs[1].newStart in NewLines(hs[1]);
    }
  }

  lemma StrayPath(path: string, added: Added, h: Hunk)
    requires path != [] && !Keeps(path, h) && Run(State(Some(path), 0, added), HunkText(h)).State?
    ensures Run(State(Some(path), 0, added), HunkText(h)).path != Some(path)
  {
    HunkExact(path, added, h);
  }

  lemma LostSecond(st: State, path: string, hs: seq<Hunk>)
    requires st.State? && st.skip == 0 && path != [] && st.path != Some(path) && hs != []
    requires Fresh(hs, LinesUnder(st.added, path))
    ensures var r := Run(st, HunkTexts(hs)); r.State? ==> LinesUnder(r.added, path) !! NewLines(hs[0])
  {
    AnyHunk(st, hs[0], path);
    RunAppend(st, HunkText(hs[0]), HunkTexts(hs[1..]));
    var nx := Run(st, HunkText(hs[0]));
    if nx.State? {
      AnyHunks(nx, hs[1..], path);
      FreshMisses(hs[1..], LinesUnder(st.added, path) + NewLines(hs[0]), NewLines(hs[0]), LinesUnder(nx.added, path));
    } else {
      StaysDead(HunkTexts(hs[1..]));
    }
  }

  /** The hunks of a file are read as what they mean if and only if every one with another
      below it keeps the path, and the last is readable. */
  lemma {:induction false} HunksExact(path: string, added: Added, hs: seq<Hunk>)
    requires path != [] && Fresh(hs, LinesUnder(added, path))
    ensures Outcome(Run(State(Some(path), 0, added), HunkTexts(hs))) == Some(HunksMean(added, path, hs)) <==> Straight(path, hs)
    decreases hs
  {
    if Straight(path, hs) {
      RunHunks(path, added, hs);
    } else if |hs| == 1 {
      LastUnreadable(path, added, hs);
    } else if !Keeps(path, hs[0]) {
      Strays(path, added, hs);
    } else {
      StraightRest(path, hs);
      HunkExact(path, added, hs[0]);
      RunAppend(State(Some(path), 0, added), HunkText(hs[0]), HunkTexts(hs[1..]));
      HunksExact(path, Record(added, path, NewLines(hs[0])), hs[1..]);
    }
  }

  lemma LastUnreadable(path: string, added: Added, hs: seq<Hunk>)
    requires path != [] && |hs| == 1 && !Readable(hs[0])
    ensures Run(State(Some(path), 0, added), HunkTexts(hs)).Died?
  {
    HunkExact(path, added, hs[0]);
    assert HunkTexts(hs) == HunkText(hs[0]) + [] == HunkText(hs[0]);
  }

  /** A hunk that spells another path sends the next one there. */
  lemma MisleadingHunk(path: string, added: Added, h: Hunk, other: string, next: Hunk)
    requires path != [] && other != [] && other != path && other[|other| - 1] != '\t'
    requires Misleading(h) && LastLine(h) == "++ b/" + other && !Misleading(next)
    ensures Run(State(Some(path), 0, added), HunkText(h) + HunkText(next))
         == State(Some(other), 0, Record(Record(added, path, NewLines(h)), other, NewLines(next)))
  {
    var done := State(Some(path), 0, Record(added, path, NewLines(h)));
    RunHunk(path, added, h);
    HeaderLikeStep(done, other);
    MarkerInert();
    RunInert(done.(path := Some(other)), Ending(h.addedOpen));
    RunAppend(State(Some(path), 0, added), HunkText(h), HunkText(next));
    RunHunk(other, done.added, next);
  }

  // ---------------------------------------------------------------------- examples

  /** A one-line change of a file that ended without a newline. */
  function Marked(start: nat, text: string): Hunk { Hunk(start, start, true, true, "", ["x"], true, [text], false) }

  /** When the hunk's new line spells another path and a hunk follows, that hunk's lines
      are recorded under the other path. */
  lemma MisleadingDiff()
    ensures var hs := [Marked(1, "++ b/c.py"), Marked(3, "y")];
            var f := FileDiff([], Some("a.py"), false, hs);
            Outcome(Run(START, DiffText([f]))) != Some(DiffMeans(map[], [f])) && !Straight("a.py", hs)
  {
    var hs := [Marked(1, "++ b/c.py"), Marked(3, "y")];
    SpelledOut();
    TwoFresh(hs);
    assert !Keeps("a.py", hs[0]);
    OneFile("a.py", hs);
    HunksExact("a.py", map[], hs);
  }

  lemma SpelledOut()
    ensures var l := "++ b/c.py"; StartsWith(l, "++ ") && StartsWith(l, "++ b/") && RStripTabs(l[5..]) != "a.py"
  {
    var l := "++ b/c.py";
    assert l[..3] == "++ " && l[..5] == "++ b/" && l[5..] == "c.py";
    assert RStripTabs("c.py") == "c.py" && "c.py"[0] != "a.py"[0];
  }

  lemma TwoFresh(hs: seq<Hunk>)
    requires |hs| == 2 && |hs[0].added| == 1 && |hs[1].added| == 1 && hs[0].newStart < hs[1].newStart
    ensures Fresh(hs, {})
  {
    assert hs[1..][1..] == [] && Fresh([], {} + NewLines(hs[0]) + NewLines(hs[1]));
    assert Fresh(hs[1..], {} + NewLines(hs[0]));
  }

  lemma OneFile(path: string, hs: seq<Hunk>)
    requires path != [] && path[|path| - 1] != '\t'
    ensures var f := FileDiff([], Some(path), false, hs);
            && Run(START, DiffText([f])) == Run(State(Some(path), 0, map[]), HunkTexts(hs))
            && DiffMeans(map[], [f]) == HunksMean(map[], path, hs)
  {
    var f := FileDiff([], Some(path), false, hs);
    assert [f][1..] == [] && DiffText([f]) == FileText(f) + [] == FileText(f);
    assert FileText(f) == [PathLine(f)] + HunkTexts(hs);
    PathRead(f, HunkTexts(hs));
  }

  lemma PathRead(f: FileDiff, rest: seq<string>)
    requires f.path.Some? && f.path.value != [] && f.path.value[|f.path.value| - 1] != '\t'
    ensures Run(START, [PathLine(f)] + rest) == Run(State(f.path, 0, map[]), rest)
  {
    PathReads(f.path.value, f.tab);
    assert Step(START, PathLine(f)) == State(f.path, 0, map[]);
    assert ([PathLine(f)] + rest)[1..] == rest;
  }

  /** When it spells no path, the whole diff is refused, even at the end of the file. */
  lemma RefusedDiff()
    ensures var f := FileDiff([], Some("a.py"), false, [Marked(1, "++ y")]);
            Outcome(Run(START, DiffText([f]))) == None
  {
    var hs := [Marked(1, "++ y")];
    var l := "++ y";
    assert l[..3] == "++ " && l[3] == 'y';
    assert !StartsWith(l, "++ b/") && l != "++ /dev/null";
    OneFile("a.py", hs);
    LastUnreadable("a.py", map[], hs);
  }
}
