/** Conservation for the declaration splitter: what it emits is the header's own
    text, minus linkage wrappers, cut at depth zero. */
module AbiFlattenText {
  import opened PyText
  import opened AbiFlatten
  import opened AbiTails
  import opened AbiFlattenLaws

  function NonSpace(s: string): string {
    if s == [] then [] else (if IsSpace(s[0]) then [] else [s[0]]) + NonSpace(s[1..])
  }

  function Cat(ds: seq<string>): string {
    if ds == [] then [] else Cat(ds[..|ds| - 1]) + ds[|ds| - 1]
  }

  lemma {:induction false} NonSpaceAppend(a: string, b: string)
    ensures NonSpace(a + b) == NonSpace(a) + NonSpace(b)
  {
    if a == [] {
      assert a + b == b;
    } else {
      assert (a + b)[0] == a[0] && (a + b)[1..] == a[1..] + b;
      NonSpaceAppend(a[1..], b);
    }
  }

  lemma {:induction false} NonSpaceOfSpace(s: string)
    requires AllSpace(s)
    ensures NonSpace(s) == [] && Net(s) == 0
  {
    if s != [] {
      assert IsSpace(s[0]);
      assert AllSpace(s[1..]) by { assert forall i :: 0 <= i < |s[1..]| ==> s[1..][i] == s[i + 1]; }
      NonSpaceOfSpace(s[1..]);
    }
  }

  lemma {:induction false} NetAppend(a: string, b: string)
    ensures Net(a + b) == Net(a) + Net(b)
  {
    if a == [] {
      assert a + b == b;
    } else {
      assert (a + b)[0] == a[0] && (a + b)[1..] == a[1..] + b;
      NetAppend(a[1..], b);
    }
  }

  // ------------------------------------------------------ a reading of the source

  /** The source without its whitespace, each linkage brace told apart from text. */
  datatype Event = Text(c: char) | Open | Close

  function EventOf(st: Scan, c: char): seq<Event> {
    if st.Unmatched? || IsSpace(c) then []
    else if c == '{' && ExternCTail(st.buf).Some? then [Open]
    else if c == '}' && st.stack != [] && st.stack[|st.stack| - 1] == ExternC then [Close]
    else [Text(c)]
  }

  function Events(st: Scan, s: string): seq<Event>
    decreases s
  {
    if s == [] then [] else EventOf(st, s[0]) + Events(Step(st, s[0]), s[1..])
  }

  function Plain(ev: seq<Event>): string {
    if ev == [] then []
    else [match ev[0] case Text(c) => c case Open => '{' case Close => '}'] + Plain(ev[1..])
  }

  const WORDS := "extern\"C\""

  /** Text accumulates; a linkage `{` takes back the `extern "C"` in front of it. */
  function Replay(kept: string, ev: seq<Event>): Option<string>
    decreases ev
  {
    if ev == [] then Some(kept)
    else match ev[0]
         case Text(c) => Replay(kept + [c], ev[1..])
         case Close => Replay(kept, ev[1..])
         case Open => if EndsWith(kept, WORDS) then Replay(kept[..|kept| - 9], ev[1..]) else None
  }

  /** The reading nests: a linkage `}` closes a linkage `{`, any other closing
      bracket closes one that is text. */
  function Nest(stack: seq<Bracket>, ev: seq<Event>): Option<seq<Bracket>>
    decreases ev
  {
    if ev == [] then Some(stack)
    else match ev[0]
         case Open => Nest(stack + [ExternC], ev[1..])
         case Close =>
           if stack != [] && stack[|stack| - 1] == ExternC then Nest(stack[..|stack| - 1], ev[1..]) else None
         case Text(c) =>
           if Delta(c) == 1 then Nest(stack + [Real], ev[1..])
           else if Delta(c) == 0 then Nest(stack, ev[1..])
           else if stack != [] && stack[|stack| - 1] == Real then Nest(stack[..|stack| - 1], ev[1..])
           else None
  }

  lemma {:induction false} EventsPlain(st: Scan, s: string)
    requires Run(st, s).Scan?
    ensures Plain(Events(st, s)) == NonSpace(s)
    decreases s
  {
    if s != [] {
      if st.Unmatched? { RunUnmatched(s); assert false; }
      EventsPlain(Step(st, s[0]), s[1..]);
      var e := EventOf(st, s[0]);
      var rest := Events(Step(st, s[0]), s[1..]);
      if e == [] {
        assert e + rest == rest;
      } else {
        assert (e + rest)[0] == e[0] && (e + rest)[1..] == rest;
      }
    }
  }

  /** The reading nests exactly when no `)` or `]` closes a linkage brace, and then ends
      with the scanner's own stack. */
  lemma {:induction false} EventsNest(st: Scan, s: string)
    requires Run(st, s).Scan? && st.Scan?
    ensures Nest(st.stack, Events(st, s)).Some? <==> MisCloseCount(st, s) == 0
    ensures MisCloseCount(st, s) == 0 ==> Nest(st.stack, Events(st, s)) == Some(Run(st, s).stack)
    decreases s
  {
    if s != [] {
      var nx := Step(st, s[0]);
      if nx.Unmatched? { RunUnmatched(s[1..]); assert false; }
      EventsNest(nx, s[1..]);
      NestStep(st, s[0], Events(nx, s[1..]));
    }
  }

  lemma NestStep(st: Scan, c: char, rest: seq<Event>)
    requires st.Scan? && Step(st, c).Scan?
    ensures Nest(st.stack, EventOf(st, c) + rest) == if MisCloses(st, c) then None else Nest(Step(st, c).stack, rest)
  {
    var e := EventOf(st, c);
    if e == [] {
      assert e + rest == rest;
    } else {
      assert (e + rest)[0] == e[0] && (e + rest)[1..] == rest;
    }
  }

  // ------------------------------------------------------------ the kept text

  ghost function Kept(st: Scan): string
    requires st.Scan?
  {
    NonSpace(Cat(st.decls)) + NonSpace(st.buf)
  }

  lemma {:induction false} LStripSuffix(s: string)
    ensures |LStrip(s)| <= |s| && LStrip(s) == s[|s| - |LStrip(s)|..]
    ensures AllSpace(s[..|s| - |LStrip(s)|])
  {
    if s != [] && IsSpace(s[0]) {
      LStripSuffix(s[1..]);
      var n := |s| - |LStrip(s)|;
      forall i | 0 <= i < n ensures IsSpace(s[..n][i]) {
        if i > 0 { assert s[..n][i] == s[1..][..n - 1][i - 1]; }
      }
    }
  }

  lemma NonSpaceStrip(s: string)
    ensures NonSpace(Strip(s)) == NonSpace(s)
  {
    var r := RStrip(s);
    RStripPrefix(s);
    assert s == r + s[|r|..];
    NonSpaceAppend(r, s[|r|..]);
    NonSpaceOfSpace(s[|r|..]);
    LStripSuffix(r);
    var n := |r| - |LStrip(r)|;
    assert r == r[..n] + LStrip(r);
    NonSpaceAppend(r[..n], LStrip(r));
    NonSpaceOfSpace(r[..n]);
  }

  lemma ExternCTailParts(buf: string) returns (gap1: string, gap2: string, gap3: string)
    requires ExternCTail(buf).Some?
    ensures buf == buf[..ExternCTail(buf).value] + gap1 + EXTERN + gap2 + QUOTED_C + gap3
    ensures AllSpace(gap1) && AllSpace(gap2) && AllSpace(gap3)
  {
    var k := ExternCTail(buf).value;
    var t := RStrip(buf);
    RStripPrefix(buf);
    var q := t[..|t| - 3];
    var u := RStrip(q);
    RStripPrefix(q);
    PrefixOfPrefix(buf, |t|, |q|);
    PrefixOfPrefix(buf, |q|, |u|);
    PrefixOfPrefix(buf, |u|, k);
    gap1, gap2, gap3 := u[k..|u| - 6], q[|u|..], buf[|t|..];
    WordPeels(u, k);
    TailPeels(q, u);
    TailPeels(t, q);
    TailPeels(buf, t);
    assert t[|q|..] == QUOTED_C;
  }

  lemma WordPeels(u: string, k: nat)
    requires WordTail(u, EXTERN) && k == (if |u| == 6 then 0 else |u| - 7)
    ensures |u| >= 6 && u == u[..k] + u[k..|u| - 6] + EXTERN && AllSpace(u[k..|u| - 6])
  {
    TailPeels(u, u[..|u| - 6]);
    TailPeels(u[..|u| - 6], u[..k]);
  }

  lemma TailPeels<T>(a: seq<T>, b: seq<T>)
    requires b <= a
    ensures a == b + a[|b|..]
  {
  }

  lemma PrefixOfPrefix<T>(a: seq<T>, n: nat, m: nat)
    requires m <= n <= |a|
    ensures a[..n][..m] == a[..m]
  {
  }

  lemma PlainAppend(a: string, b: string)
    ensures NonSpace(a + b) == NonSpace(a) + NonSpace(b) && Net(a + b) == Net(a) + Net(b)
  {
    NonSpaceAppend(a, b);
    NetAppend(a, b);
  }

  lemma GapAppend(a: string, gap: string)
    requires AllSpace(gap)
    ensures NonSpace(a + gap) == NonSpace(a) && Net(a + gap) == Net(a)
  {
    PlainAppend(a, gap);
    NonSpaceOfSpace(gap);
  }

  lemma GapWord(head: string, gap: string, w: string)
    requires AllSpace(gap) && NonSpace(w) == w && Net(w) == 0
    ensures NonSpace(head + gap + w) == NonSpace(head) + w && Net(head + gap + w) == Net(head)
  {
    GapAppend(head, gap);
    PlainAppend(head + gap, w);
  }

  lemma TwoWords(head: string, gap1: string, w1: string, gap2: string, w2: string, gap3: string)
    requires AllSpace(gap1) && AllSpace(gap2) && AllSpace(gap3)
    requires NonSpace(w1) == w1 && NonSpace(w2) == w2 && Net(w1) == 0 && Net(w2) == 0
    ensures var s := head + gap1 + w1 + gap2 + w2 + gap3;
            NonSpace(s) == NonSpace(head) + (w1 + w2) && Net(s) == Net(head)
  {
    var one := head + gap1 + w1;
    GapWord(head, gap1, w1);
    GapWord(one, gap2, w2);
    GapAppend(one + gap2 + w2, gap3);
    Assoc(NonSpace(head), w1, w2);
  }

  /** The text an `extern "C" {` takes back. */
  lemma ExternCTailText(buf: string)
    requires ExternCTail(buf).Some?
    ensures var k := ExternCTail(buf).value;
            NonSpace(buf) == NonSpace(buf[..k]) + WORDS && Net(buf) == Net(buf[..k])
  {
    var gap1, gap2, gap3 := ExternCTailParts(buf);
    WordsPlain();
    TwoWords(buf[..ExternCTail(buf).value], gap1, EXTERN, gap2, QUOTED_C, gap3);
  }

  lemma {:induction false} WordPlain(w: string)
    requires forall i :: 0 <= i < |w| ==> !IsSpace(w[i]) && Delta(w[i]) == 0
    ensures NonSpace(w) == w && Net(w) == 0
  {
    if w != [] {
      WordPlain(w[1..]);
      assert w == [w[0]] + w[1..];
    }
  }

  lemma WordsPlain()
    ensures NonSpace(EXTERN) == EXTERN && NonSpace(QUOTED_C) == QUOTED_C && Net(EXTERN) == 0 && Net(QUOTED_C) == 0
    ensures EXTERN + QUOTED_C == WORDS
  {
    ExternPlain();
    QuotedPlain();
  }

  lemma ExternPlain()
    ensures NonSpace(EXTERN) == EXTERN && Net(EXTERN) == 0
  {
    var w := EXTERN;
    forall i | 0 <= i < |w| ensures 'a' <= w[i] <= 'z' {
    }
    WordPlain(w);
  }

  lemma QuotedPlain()
    ensures NonSpace(QUOTED_C) == QUOTED_C && Net(QUOTED_C) == 0
  {
    var w := QUOTED_C;
    assert |w| == 3 && w[0] == '"' && w[1] == 'C' && w[2] == '"';
    WordPlain(w);
  }

  lemma NonSpaceOne(s: string, c: char)
    ensures NonSpace(s + [c]) == if IsSpace(c) then NonSpace(s) else NonSpace(s) + [c]
  {
    NonSpaceAppend(s, [c]);
    assert NonSpace([c][1..]) == [];
  }

  lemma FlushKept(st: Scan)
    requires st.Scan?
    ensures Kept(Flush(st)) == Kept(st)
  {
    var d := Strip(st.buf);
    NonSpaceStrip(st.buf);
    if d != [] {
      assert (st.decls + [d])[..|st.decls|] == st.decls;
      NonSpaceAppend(Cat(st.decls), d);
    }
    assert NonSpace(Cat(st.decls)) + NonSpace(d) + [] == NonSpace(Cat(st.decls)) + NonSpace(d);
  }

  lemma AppendKept(st: Scan, c: char)
    requires st.Scan? && !IsSpace(c)
    ensures Kept(st.(buf := st.buf + [c])) == Kept(st) + [c]
  {
    NonSpaceOne(st.buf, c);
    assert NonSpace(Cat(st.decls)) + (NonSpace(st.buf) + [c]) == Kept(st) + [c];
  }

  lemma StepKept(st: Scan, c: char)
    requires st.Scan? && Step(st, c).Scan?
    ensures Replay(Kept(st), EventOf(st, c)) == Some(Kept(Step(st, c)))
  {
    var e := EventOf(st, c);
    if e != [] { assert e[1..] == []; }
    if c == '{' && ExternCTail(st.buf).Some? {
      ExternCTailText(st.buf);
      var head := NonSpace(Cat(st.decls)) + NonSpace(st.buf[..ExternCTail(st.buf).value]);
      assert Kept(st) == head + WORDS;
      assert |WORDS| == 9;
    } else if IsSpace(c) {
      NonSpaceOne(st.buf, ' ');
    } else if e == [Text(c)] {
      AppendKept(st, c);
      StepText(st, c);
    }
  }

  /** A character kept as text is appended, and possibly flushed. */
  lemma StepText(st: Scan, c: char)
    requires st.Scan? && Step(st, c).Scan? && EventOf(st, c) == [Text(c)]
    ensures Kept(Step(st, c)) == Kept(st.(buf := st.buf + [c]))
  {
    var fed := st.(buf := st.buf + [c]);
    if c == '}' {
      var popped := fed.(stack := st.stack[..|st.stack| - 1], depth := st.depth - 1);
      assert Step(st, c) == popped || Step(st, c) == Flush(popped);
      FlushKept(popped);
    } else if c == ';' {
      assert Step(st, c) == fed || Step(st, c) == Flush(fed);
      FlushKept(fed);
    }
  }

  lemma {:induction false} ReplayAppend(kept: string, a: seq<Event>, b: seq<Event>)
    requires Replay(kept, a).Some?
    ensures Replay(kept, a + b) == Replay(Replay(kept, a).value, b)
    decreases a
  {
    if a == [] {
      assert a + b == b;
    } else {
      assert (a + b)[0] == a[0] && (a + b)[1..] == a[1..] + b;
      match a[0]
      case Text(c) => ReplayAppend(kept + [c], a[1..], b);
      case Close => ReplayAppend(kept, a[1..], b);
      case Open => ReplayAppend(kept[..|kept| - 9], a[1..], b);
    }
  }

  lemma {:induction false} RunKept(st: Scan, s: string)
    requires st.Scan? && Run(st, s).Scan?
    ensures Replay(Kept(st), Events(st, s)) == Some(Kept(Run(st, s)))
    decreases s
  {
    if s != [] {
      var nx := Step(st, s[0]);
      if nx.Unmatched? { RunUnmatched(s[1..]); assert false; }
      StepKept(st, s[0]);
      RunKept(nx, s[1..]);
      ReplayAppend(Kept(st), EventOf(st, s[0]), Events(nx, s[1..]));
    }
  }

  // -------------------------------------------------------------- the statement

  /** Whatever the splitter accepts, the text it emits is the source's own text in
      order, from which each linkage `{` has taken back the `extern "C"` before it. */
  lemma SplitConserves(src: string)
    requires Split(src).Decls?
    ensures var ev := Events(START, src);
            && Plain(ev) == NonSpace(src)
            && Replay([], ev) == Some(NonSpace(Cat(Split(src).decls)))
  {
    var st := Run(START, src);
    EventsPlain(START, src);
    RunKept(START, src);
    NonSpaceStrip(st.buf);
    assert Kept(START) == [];
    assert Kept(st) == NonSpace(Cat(st.decls));
  }
}
