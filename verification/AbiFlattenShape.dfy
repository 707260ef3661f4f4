/** The shape of what the declaration splitter emits: when every declaration is whole,
    and when nothing is left open. */
module AbiFlattenShape {
  import opened PyText
  import opened AbiFlatten
  import opened AbiTails
  import opened AbiFlattenLaws
  import opened AbiFlattenText

  /** Whitespace only as single inner blanks. */
  ghost predicate Clean(s: string) {
    forall i :: 0 <= i < |s| && IsSpace(s[i]) ==> s[i] == ' ' && i > 0 && !IsSpace(s[i - 1])
  }

  /** Every prefix closes no more brackets than it opens. */
  ghost predicate Levels(s: string) {
    forall i :: 0 <= i <= |s| ==> Net(s[..i]) >= 0
  }

  /** A whole declaration: normalised, bracket-balanced, closed by `;` or `}`. */
  ghost predicate Whole(d: string) {
    && d != [] && (d[|d| - 1] == ';' || d[|d| - 1] == '}')
    && Levels(d) && Net(d) == 0
    && Normalise(d) == d
  }

  /** What every state keeps: the buffer is clean, and the depth is its own net count. */
  ghost predicate Even(st: Scan) { st.Scan? && Clean(st.buf) && Net(st.buf) == st.depth }

  /** Nothing emitted or buffered so far closes a bracket it did not open. */
  ghost predicate Sound(st: Scan) { st.Scan? && Levels(st.buf) && forall d :: d in st.decls ==> Whole(d) }

  lemma {:induction false} SqueezeClean(s: string)
    requires forall i :: 0 <= i < |s| && IsSpace(s[i]) ==> s[i] == ' ' && (i > 0 ==> !IsSpace(s[i - 1]))
    ensures Squeeze(s) == s
  {
    if s != [] {
      forall i | 0 <= i < |s[1..]| && IsSpace(s[1..][i]) ensures s[1..][i] == ' ' && (i > 0 ==> !IsSpace(s[1..][i - 1])) {
        assert IsSpace(s[i + 1]);
      }
      SqueezeClean(s[1..]);
      if IsSpace(s[0]) && |s| > 1 && IsSpace(s[1]) { assert false; }
      assert s == [s[0]] + s[1..];
    }
  }

  lemma CleanStrip(s: string)
    requires Clean(s) && s != [] && !IsSpace(s[|s| - 1])
    ensures Strip(s) == s && Normalise(s) == s
  {
    SqueezeClean(s);
    assert !IsSpace(s[0]);
  }

  lemma LevelsAppend(s: string, c: char)
    ensures Net(s + [c]) == Net(s) + Delta(c)
    ensures Levels(s + [c]) <==> Levels(s) && Net(s) + Delta(c) >= 0
  {
    NetAppend(s, [c]);
    assert Net([c]) == Delta(c) by { assert [c][1..] == []; }
    var t := s + [c];
    assert t[..|t|] == t;
    forall i | 0 <= i <= |s| ensures t[..i] == s[..i] { }
  }

  lemma CleanAppend(s: string, c: char)
    requires Clean(s) && !IsSpace(c)
    ensures Clean(s + [c])
  {
  }

  /** A state that differs by one character of text. */
  lemma Pushed(st: Scan, nx: Scan, c: char)
    requires Even(st) && nx.Scan? && !IsSpace(c) && nx.decls == st.decls && nx.buf == st.buf + [c] && nx.depth == st.depth + Delta(c)
    ensures Even(nx) && (Sound(nx) <==> Sound(st) && nx.depth >= 0)
  {
    LevelsAppend(st.buf, c);
    CleanAppend(st.buf, c);
  }

  lemma FlushSound(st: Scan, c: char)
    requires Even(st) && st.depth == 0 && st.buf != [] && st.buf[|st.buf| - 1] == c && (c == ';' || c == '}')
    ensures Even(Flush(st)) && (Sound(Flush(st)) <==> Sound(st))
  {
    CleanStrip(st.buf);
    assert Whole(st.buf) <==> Levels(st.buf);
    assert Levels([]);
    assert st.buf in st.decls + [st.buf];
  }

  /** Every step keeps the depth even with the buffer, and keeps what is emitted sound
      exactly when it does not drive the depth below zero. */
  lemma StepSound(st: Scan, c: char)
    requires Even(st) && Step(st, c).Scan?
    ensures Even(Step(st, c)) && (Sound(Step(st, c)) <==> Sound(st) && Step(st, c).depth >= 0)
  {
    if c == '{' && ExternCTail(st.buf).Some? {
      LinkageSound(st);
    } else if Delta(c) == 1 {
      OpenParts(st, c);
      Pushed(st, Step(st, c), c);
    } else if Delta(c) == -1 {
      CloseSound(st, c);
    } else if IsSpace(c) {
      SpaceSound(st, c);
    } else {
      TextSound(st, c);
    }
  }

  lemma OpenParts(st: Scan, c: char)
    requires st.Scan? && Delta(c) == 1 && (c == '{' ==> ExternCTail(st.buf).None?)
    ensures var nx := Step(st, c);
            nx.Scan? && nx.decls == st.decls && nx.buf == st.buf + [c] && nx.depth == st.depth + 1 && nx.stack == st.stack + [Real]
  {
  }

  lemma CloseSound(st: Scan, c: char)
    requires Even(st) && Delta(c) == -1 && Step(st, c).Scan?
    ensures Even(Step(st, c)) && (Sound(Step(st, c)) <==> Sound(st) && Step(st, c).depth >= 0)
  {
    if c == '}' && st.stack[|st.stack| - 1] == ExternC {
      SoundDepth(st);
    } else {
      var popped := st.(stack := st.stack[..|st.stack| - 1], depth := st.depth - 1, buf := st.buf + [c]);
      Pushed(st, popped, c);
      if c == '}' && popped.depth == 0 { FlushSound(popped, c); }
    }
  }

  lemma SoundDepth(st: Scan)
    requires Even(st)
    ensures Sound(st) ==> st.depth >= 0
  {
    assert st.buf[..|st.buf|] == st.buf;
  }

  lemma TextSound(st: Scan, c: char)
    requires Even(st) && Delta(c) == 0 && !IsSpace(c)
    ensures Even(Step(st, c)) && (Sound(Step(st, c)) <==> Sound(st) && Step(st, c).depth >= 0)
  {
    var fed := st.(buf := st.buf + [c]);
    Pushed(st, fed, c);
    if c == ';' && st.depth == 0 { FlushSound(fed, c); }
  }

  lemma SpaceSound(st: Scan, c: char)
    requires Even(st) && Delta(c) == 0 && IsSpace(c)
    ensures Even(Step(st, c)) && (Sound(Step(st, c)) <==> Sound(st) && Step(st, c).depth >= 0)
  {
    var s := st.buf;
    SoundDepth(st);
    if s != [] && s[|s| - 1] != ' ' {
      assert !IsSpace(s[|s| - 1]);
      LevelsAppend(s, ' ');
      assert Clean(s + " ");
    }
  }

  // ---------------------------------------------------- what a linkage brace takes

  /** The text a linkage brace takes back opens and closes nothing. */
  ghost predicate Flat(s: string) { forall i :: 0 <= i < |s| ==> Delta(s[i]) == 0 }

  lemma SpaceFlat(s: string)
    requires AllSpace(s)
    ensures Flat(s)
  {
  }

  lemma WordsFlat()
    ensures Flat(EXTERN) && Flat(QUOTED_C)
  {
    QuietWords();
    forall i | 0 <= i < |EXTERN| ensures Delta(EXTERN[i]) == 0 { assert EXTERN[i] !in "{}()[];"; }
    forall i | 0 <= i < |QUOTED_C| ensures Delta(QUOTED_C[i]) == 0 { assert QUOTED_C[i] !in "{}()[];"; }
  }

  lemma {:induction false} FlatNet(s: string)
    requires Flat(s)
    ensures Net(s) == 0
  {
    if s != [] {
      assert Flat(s[1..]);
      FlatNet(s[1..]);
    }
  }

  lemma FlatLevels(a: string, b: string)
    requires Flat(b)
    ensures Net(a + b) == Net(a) && (Levels(a + b) <==> Levels(a))
  {
    var t := a + b;
    NetAppend(a, b);
    FlatNet(b);
    forall i | 0 <= i <= |a| ensures t[..i] == a[..i] { }
    forall i | |a| <= i <= |t| ensures Net(t[..i]) == Net(a) {
      assert t[..i] == a + b[..i - |a|];
      NetAppend(a, b[..i - |a|]);
      FlatNet(b[..i - |a|]);
    }
    assert t[..|a|] == a && a[..|a|] == a;
  }

  lemma TailFlat(buf: string)
    requires ExternCTail(buf).Some?
    ensures buf == buf[..ExternCTail(buf).value] + buf[ExternCTail(buf).value..] && Flat(buf[ExternCTail(buf).value..])
  {
    var k := ExternCTail(buf).value;
    var gap1, gap2, gap3 := ExternCTailParts(buf);
    WordsFlat();
    SpaceFlat(gap1);
    SpaceFlat(gap2);
    SpaceFlat(gap3);
    assert buf[k..] == gap1 + EXTERN + gap2 + QUOTED_C + gap3;
  }

  lemma LinkageSound(st: Scan)
    requires Even(st) && ExternCTail(st.buf).Some?
    ensures Even(Step(st, '{')) && (Sound(Step(st, '{')) <==> Sound(st) && Step(st, '{').depth >= 0)
  {
    var k := ExternCTail(st.buf).value;
    TailFlat(st.buf);
    FlatLevels(st.buf[..k], st.buf[k..]);
    SoundDepth(st);
  }

  // --------------------------------------------------------------- whole exactly

  /** The depth never falls below zero. */
  ghost predicate Afloat(st: Scan, s: string) {
    forall k :: 0 <= k <= |s| && Run(st, s[..k]).Scan? ==> Run(st, s[..k]).depth >= 0
  }

  lemma AfloatStep(st: Scan, s: string)
    requires st.Scan? && s != []
    ensures Afloat(st, s) <==> st.depth >= 0 && Afloat(Step(st, s[0]), s[1..])
  {
    var nx := Step(st, s[0]);
    assert s[..0] == [];
    forall k | 0 <= k <= |s[1..]| ensures Run(st, s[..k + 1]) == Run(nx, s[1..][..k]) {
      assert s[..k + 1][0] == s[0] && s[..k + 1][1..] == s[1..][..k];
    }
    forall k | 0 < k <= |s| ensures Run(st, s[..k]) == Run(nx, s[1..][..k - 1]) {
      assert s[..k][0] == s[0] && s[..k][1..] == s[1..][..k - 1];
    }
  }

  lemma AfloatNow(st: Scan, s: string)
    requires st.Scan? && Afloat(st, s)
    ensures st.depth >= 0
  {
    assert s[..0] == [] && Run(st, s[..0]) == st;
  }

  lemma {:induction false} RunSound(st: Scan, s: string)
    requires Even(st) && Run(st, s).Scan?
    ensures Even(Run(st, s)) && (Sound(Run(st, s)) <==> Sound(st) && Afloat(st, s))
    decreases s
  {
    SoundDepth(st);
    if s == [] {
      assert s[..0] == [];
    } else {
      var nx := Step(st, s[0]);
      if nx.Unmatched? { RunUnmatched(s[1..]); assert false; }
      StepSound(st, s[0]);
      RunSound(nx, s[1..]);
      AfloatStep(st, s);
      if Afloat(nx, s[1..]) { AfloatNow(nx, s[1..]); }
    }
  }

  /** Whatever the splitter accepts, every declaration emitted is whole if and only if
      the depth never falls below zero. */
  lemma WholeExact(src: string)
    requires Split(src).Decls?
    ensures (forall d :: d in Split(src).decls ==> Whole(d))
            <==> forall k :: 0 <= k <= |src| && Run(START, src[..k]).Scan? ==> Run(START, src[..k]).depth >= 0
  {
    AcceptedEnd(src);
    assert Levels([]);
    assert Sound(START);
  }

  lemma AcceptedEnd(src: string)
    requires Split(src).Decls?
    ensures var st := Run(START, src);
            Even(START) && Even(st) && st.buf == [] && st.depth == 0 && (Sound(st) <==> Sound(START) && Afloat(START, src))
  {
    RunSound(START, src);
    CleanEmpty(Run(START, src).buf);
  }

  lemma CleanEmpty(s: string)
    requires Clean(s)
    ensures s != [] ==> Strip(s) != []
  {
    NonSpaceStrip(s);
    if s != [] { assert !IsSpace(s[0]); }
  }

  /** As it does not when no `)` or `]` closes a linkage brace. */
  lemma SplitWhole(src: string)
    requires Split(src).Decls? && MisCloseCount(START, src) == 0
    ensures forall d :: d in Split(src).decls ==> Whole(d)
  {
    forall k | 0 <= k <= |src| && Run(START, src[..k]).Scan? ensures Run(START, src[..k]).depth >= 0 {
      RunLag(START, src[..k]);
      MisClosePrefix(START, src, k);
    }
    WholeExact(src);
  }

  lemma {:induction false} MisClosePrefix(st: Scan, s: string, k: nat)
    requires k <= |s|
    ensures MisCloseCount(st, s[..k]) <= MisCloseCount(st, s)
    decreases s
  {
    if k > 0 {
      assert s[..k][0] == s[0] && s[..k][1..] == s[1..][..k - 1];
      MisClosePrefix(Step(st, s[0]), s[1..], k - 1);
    }
  }

  // ------------------------------------------------------------ what is left open

  function Count(ev: seq<Event>, e: Event): nat {
    if ev == [] then 0 else (if ev[0] == e then 1 else 0) + Count(ev[1..], e)
  }

  lemma {:induction false} CountAppend(a: seq<Event>, b: seq<Event>, e: Event)
    ensures Count(a + b, e) == Count(a, e) + Count(b, e)
  {
    if a == [] {
      assert a + b == b;
    } else {
      assert (a + b)[0] == a[0] && (a + b)[1..] == a[1..] + b;
      CountAppend(a[1..], b, e);
    }
  }

  /** The stack grows by the linkage braces opened and not closed, and by the depth; each
      mis-closing bracket has taken a linkage brace for one of its own. */
  lemma StepStack(st: Scan, c: char)
    requires st.Scan? && Step(st, c).Scan?
    ensures |Step(st, c).stack| - Step(st, c).depth
         == |st.stack| - st.depth + Count(EventOf(st, c), Open) - Count(EventOf(st, c), Close)
  {
    var e := EventOf(st, c);
    if e != [] { assert e[1..] == []; }
  }

  lemma {:induction false} RunStack(st: Scan, s: string)
    requires st.Scan? && Run(st, s).Scan?
    ensures |Run(st, s).stack| - Run(st, s).depth
         == |st.stack| - st.depth + Count(Events(st, s), Open) - Count(Events(st, s), Close)
    decreases s
  {
    if s != [] {
      var nx := Step(st, s[0]);
      if nx.Unmatched? { RunUnmatched(s[1..]); assert false; }
      StepStack(st, s[0]);
      RunStack(nx, s[1..]);
      CountAppend(EventOf(st, s[0]), Events(nx, s[1..]), Open);
      CountAppend(EventOf(st, s[0]), Events(nx, s[1..]), Close);
    }
  }

  /** On every accepted text, as many brackets are left open as linkage braces opened
      and not closed as such: nothing is left open if and only if the two counts are
      equal, and the real brackets among the rest are as many as the mis-closing ones. */
  lemma LeftOpenExact(src: string)
    requires Split(src).Decls?
    ensures var st, ev := Run(START, src), Events(START, src);
            && |st.stack| == Count(ev, Open) - Count(ev, Close)
            && (st.stack == [] <==> Count(ev, Open) == Count(ev, Close))
            && RealCount(st.stack) == MisCloseCount(START, src)
  {
    AcceptedEnd(src);
    RunStack(START, src);
    RunLag(START, src);
  }

  /** On every accepted text the reading nests if and only if no `)` or `]` closes a
      linkage brace; then only linkage braces are left open, and none if and only if
      linkage opens and closes are equally many. */
  lemma SplitNests(src: string)
    requires Split(src).Decls?
    ensures var ev := Events(START, src);
            var nest := Nest([], ev);
            && (nest.Some? <==> MisCloseCount(START, src) == 0)
            && (nest.Some? ==>
                  && (forall b :: b in nest.value ==> b == ExternC)
                  && (nest.value == [] <==> Count(ev, Open) == Count(ev, Close)))
  {
    EventsNest(START, src);
    LeftOpenExact(src);
    NoReals(Run(START, src).stack);
  }

  lemma {:induction false} NoReals(stack: seq<Bracket>)
    ensures RealCount(stack) == 0 ==> forall b :: b in stack ==> b == ExternC
  {
    if stack != [] {
      NoReals(stack[..|stack| - 1]);
      assert stack == stack[..|stack| - 1] + [stack[|stack| - 1]];
    }
  }

  // ------------------------------------------------------------------- examples

  /** Such a closing bracket exists on an accepted prefix, and drives the depth below zero. */
  lemma DepthCanGoNegative()
    ensures var src := "extern \"C\"{)";
            Run(START, src).Scan? && Run(START, src).depth == -1 && MisCloseCount(START, src) == 1
  {
    var t := Ready([], [ExternC]);
    assert WRAPPER + "{" + [')'] == "extern \"C\"{)";
    OpenedLinkage();
    RunAppend(START, WRAPPER + "{", [')']);
    RunOne(t, ')');
    ParenStep(t);
    assert t.stack[..0] == [];
    RunLag(START, WRAPPER + "{" + [')']);
  }

  /** A linkage block that is never closed is accepted. */
  lemma UnclosedAccepted()
    ensures Split("extern \"C\" {") == Decls([])
  {
    var src := EXTERN + " " + QUOTED_C + " " + "{";
    assert src == "extern \"C\" {";
    assert AllSpace(" ");
    RunLinkageOpen(" ", " ", [], []);
    assert [] + [ExternC] == [ExternC];
    assert Strip([]) == [];
  }

  lemma OpenedLinkage()
    ensures Run(START, WRAPPER + "{") == Ready([], [ExternC])
  {
    assert EXTERN + " " + QUOTED_C + "" + "{" == WRAPPER + "{";
    assert AllSpace(" ") && AllSpace("");
    RunLinkageOpen(" ", "", [], []);
    assert [] + [ExternC] == [ExternC];
  }

  const JUNK := ")(;"

  lemma JunkSteps()
    ensures Run(Ready([], [ExternC]), [')', '(', ';']) == Scan([JUNK], [], 0, false, [Real])
  {
    var t, t1 := Ready([], [ExternC]), Scan([], [')'], -1, false, []);
    var t2 := Scan([], [')', '('], 0, false, [Real]);
    ParenStep(t);
    assert Step(t, ')') == t1 by { assert t.stack[..0] == [] && [] + [')'] == [')']; }
    OpenStep(t1, '(');
    assert Step(t1, '(') == t2 by { assert [')'] + ['('] == [')', '('] && [] + [Real] == [Real]; }
    EndStep(t2);
    assert [')', '('] + [';'] == JUNK;
    assert Strip(JUNK) == JUNK by { assert JUNK[0] == ')' && JUNK[2] == ';' && RStrip(JUNK) == JUNK && LStrip(JUNK) == JUNK; }
    assert [] + [JUNK] == [JUNK];
    RunThree(t, ')', '(', ';');
  }

  /** And a `)` that closes one can lead to a declaration that is not whole. */
  lemma MisclosedAccepted()
    ensures Split("extern \"C\"{)(;") == Decls([JUNK]) && !Whole(JUNK)
  {
    assert (WRAPPER + "{") + JUNK == "extern \"C\"{)(;";
    OpenedLinkage();
    JunkSteps();
    RunAppend(START, WRAPPER + "{", JUNK);
    assert Strip([]) == [];
    assert JUNK[..1] == [')'] && [')'][1..] == [] && Net(JUNK[..1]) == -1;
  }

  const CALL := "f( extern \"C\" "
  const CALLED := START.(buf := CALL, depth := 1, stack := [Real])

  lemma RunTwo(st: Scan, a: char, b: char)
    ensures Run(st, [a, b]) == Step(Step(st, a), b)
  {
    RunOne(Step(st, a), b);
    assert [a, b][1..] == [b];
  }

  lemma RunThree(st: Scan, a: char, b: char, c: char)
    ensures Run(st, [a, b, c]) == Step(Step(Step(st, a), b), c)
  {
    RunTwo(Step(st, a), b, c);
    assert [a, b, c][1..] == [b, c];
  }

  lemma CallParts()
    ensures CALL == ['f', '(', ' '] + (EXTERN + " " + QUOTED_C + " ")
    ensures CALL == ['f', '('] + " " + EXTERN + " " + QUOTED_C + " " && CALL[..2] == ['f', '(']
  {
    assert EXTERN + " " + QUOTED_C + " " == CALL[3..];
  }

  lemma CallOpens()
    ensures Run(START, CALL) == CALLED
  {
    var t := START.(buf := ['f', '(', ' '], depth := 1, stack := [Real]);
    RunThree(START, 'f', '(', ' ');
    LeadSteps();
    CallWords(t);
    CallParts();
    RunAppend(START, ['f', '(', ' '], EXTERN + " " + QUOTED_C + " ");
  }

  lemma LeadSteps()
    ensures Step(Step(Step(START, 'f'), '('), ' ') == START.(buf := ['f', '(', ' '], depth := 1, stack := [Real])
  {
    var t1, t2 := START.(buf := ['f']), START.(buf := ['f', '('], depth := 1, stack := [Real]);
    assert Step(START, 'f') == t1;
    assert Step(t1, '(') == t2;
    assert Step(t2, ' ') == t2.(buf := ['f', '('] + " ");
  }

  lemma CallWords(st: Scan)
    requires st.Scan?
    ensures Run(st, EXTERN + " " + QUOTED_C + " ") == st.(buf := st.buf + (EXTERN + " " + QUOTED_C + " "))
  {
    QuietWords();
    TwoFed(st, EXTERN, QUOTED_C, " ");
  }

  lemma TwoFed(st: Scan, v: string, w: string, gap: string)
    requires st.Scan? && Quiet(v) && Quiet(w) && v != [] && w != [] && gap == [' ']
    ensures Run(st, v + gap + w + gap) == st.(buf := st.buf + (v + gap + w + gap))
  {
    OneFed(st, v, gap);
    OneFed(Run(st, v + gap), w, gap);
    Assoc(v + gap, w, gap);
    RunAppend(st, v + gap, w + gap);
    Assoc(st.buf, v + gap, w + gap);
  }

  lemma OneFed(st: Scan, w: string, gap: string)
    requires st.Scan? && Quiet(w) && w != [] && gap == [' ']
    ensures Run(st, w + gap) == st.(buf := st.buf + (w + gap))
  {
    assert AllSpace(gap) && Word(w);
    WordThenSpace(st, w, gap);
    CollapseWordSpace(st.buf, w, gap);
    Assoc(st.buf, w, gap);
  }

  /** The linkage words behind some text and a blank. */
  lemma InnerTail(h: string, e: string, q: string)
    requires e == EXTERN && q == QUOTED_C
    ensures ExternCTail(h + " " + e + " " + q + " ") == Some(|h|)
  {
    assert |e| == 6 && e[5] == 'n' && |q| == 3 && q[2] == '"';
    var u := h + " " + e;
    var t := u + " " + q;
    assert t[|t| - 1] == q[2] && u[|u| - 1] == e[5];
    RStripSolid(t);
    assert t[|t| - 3..] == q && t[..|t| - 3] == u + " ";
    RStripSolid(u);
    assert u[|u| - 6..] == e && u[|u| - 7] == ' ';
  }

  lemma LinkageStep(st: Scan, k: nat)
    requires st.Scan? && ExternCTail(st.buf) == Some(k)
    ensures Step(st, '{') == st.(stack := st.stack + [ExternC], buf := st.buf[..k])
  {
  }

  lemma ParenStep(st: Scan)
    requires st.Scan? && st.stack != []
    ensures Step(st, ')') == st.(stack := st.stack[..|st.stack| - 1], depth := st.depth - 1, buf := st.buf + [')'])
  {
  }

  lemma EndStep(st: Scan)
    requires st.Scan? && st.depth == 0
    ensures Step(st, ';') == Flush(st.(buf := st.buf + [';']))
  {
  }

  const DONE: string := ['f', '(', ')', ';']

  lemma CallSteps()
    ensures Step(Step(Step(CALLED, '{'), ')'), ';') == Scan([DONE], [], 0, false, [Real])
  {
    CallParts();
    InnerTail(['f', '('], EXTERN, QUOTED_C);
    LinkageStep(CALLED, 2);
    var t1 := Scan([], ['f', '('], 1, false, [Real] + [ExternC]);
    assert Step(CALLED, '{') == t1;
    ParenStep(t1);
    assert ([Real] + [ExternC])[..1] == [Real];
    var t2 := Scan([], ['f', '('] + [')'], 0, false, [Real]);
    assert Step(t1, ')') == t2;
    EndStep(t2);
    assert ['f', '('] + [')'] + [';'] == DONE;
    CallText(DONE);
    assert [] + [DONE] == [DONE];
  }

  lemma CallText(d: string)
    requires d == ['f', '(', ')', ';']
    ensures Strip(d) == d && Whole(d)
  {
    CallLevels();
    assert d[0] == 'f' && d[1] == '(' && d[2] == ')' && d[3] == ';';
    CleanStrip(d);
  }

  lemma CallLevels()
    ensures Levels(['f', '(', ')', ';']) && Net(['f', '(', ')', ';']) == 0
  {
    var d1, d2, d3: string := ['f'], ['f', '('], ['f', '(', ')'];
    assert [] + ['f'] == d1 && d1 + ['('] == d2 && d2 + [')'] == d3 && d3 + [';'] == ['f', '(', ')', ';'];
    assert Levels([]) && Net([]) == 0;
    LevelsAppend([], 'f');
    LevelsAppend(d1, '(');
    LevelsAppend(d2, ')');
    LevelsAppend(d3, ';');
  }

  lemma CallRuns()
    ensures Run(START, CALL + ['{', ')', ';']) == Scan([DONE], [], 0, false, [Real])
  {
    CallOpens();
    CallSteps();
    RunThree(CALLED, '{', ')', ';');
    RunAppend(START, CALL, ['{', ')', ';']);
  }

  /** A mis-closing bracket can also do no harm: here the depth only returns to zero. */
  lemma MisclosedWhole()
    ensures var src := CALL + ['{', ')', ';'];
            && src == "f( extern \"C\" {);" && DONE == "f();"
            && Split(src) == Decls([DONE]) && Whole(DONE) && MisCloseCount(START, src) == 1
  {
    CallRuns();
    CallText(DONE);
    assert Strip([]) == [];
    RunLag(START, CALL + ['{', ')', ';']);
    assert RealCount([Real]) == 1 by { assert [Real][..0] == []; }
  }
}
