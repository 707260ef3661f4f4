/** The ABI snapshot's declaration splitter: one pass over a header body with a
    bracket stack, in which the braces of `extern "C" { }` are transparent. */
module AbiFlatten {
  import opened PyText

  datatype Bracket = ExternC | Real

  /** The scanner's variables between two characters, or the error it raised. */
  datatype Scan =
    | Scan(decls: seq<string>, buf: string, depth: int, aggOpen: bool, stack: seq<Bracket>)
    | Unmatched

  datatype Outcome = Decls(decls: seq<string>) | UnmatchedClose | Unterminated

  // ------------------------------------------------- the two tail recognisers

  /** `s` ends in the word `w`, which starts `s` or follows whitespace. */
  predicate WordTail(s: string, w: string) {
    EndsWith(s, w) && (|s| == |w| || IsSpace(s[|s| - |w| - 1]))
  }

  const EXTERN := "extern"
  const QUOTED_C := "\"C\""

  /** Where the search for `(?:^|\s)extern\s+"C"\s*$` matches, if it does. */
  function ExternCTail(buf: string): (r: Option<nat>)
    ensures r.Some? ==> r.value <= |buf|
  {
    RStripPrefix(buf);
    var t := RStrip(buf);
    if !EndsWith(t, QUOTED_C) then None else ExternTail(t[..|t| - 3])
  }

  /** The same for `(?:^|\s)extern\s+$`, the whitespace not left out. */
  function ExternTail(q: string): (r: Option<nat>)
    ensures r.Some? ==> r.value <= |q|
  {
    RStripPrefix(q);
    var u := RStrip(q);
    if |u| == |q| || !WordTail(u, EXTERN) then None else Some(if |u| == 6 then 0 else |u| - 7)
  }

  predicate AggWord(t: string) {
    WordTail(t, "struct") || WordTail(t, "union") || WordTail(t, "enum")
  }

  function DropWord(t: string): string {
    if t != [] && IsWord(t[|t| - 1]) then DropWord(t[..|t| - 1]) else t
  }

  lemma {:induction false} DropWordPrefix(t: string)
    ensures |DropWord(t)| <= |t|
  {
    if t != [] && IsWord(t[|t| - 1]) { DropWordPrefix(t[..|t| - 1]); }
  }

  /** Whether `(?:^|\s)(?:struct|union|enum)(?:\s+[A-Za-z_]\w*)?$` matches `t`. */
  predicate AggTail(t: string) {
    DropWordPrefix(t);
    || AggWord(t)
    || (var h := DropWord(t);
        |h| < |t| && !IsDigit(t[|h|]) && |RStrip(h)| < |h| && AggWord(RStrip(h)))
  }

  lemma {:induction false} RStripPrefix(s: string)
    ensures |RStrip(s)| <= |s| && RStrip(s) == s[..|RStrip(s)|]
    ensures AllSpace(s[|RStrip(s)|..])
  {
    if s != [] && IsSpace(s[|s| - 1]) {
      RStripPrefix(s[..|s| - 1]);
      var n := |RStrip(s)|;
      forall i | 0 <= i < |s| - n ensures IsSpace(s[n..][i]) {
        if i < |s| - n - 1 { assert s[n..][i] == s[..|s| - 1][n..][i]; }
      }
    }
  }

  // ------------------------------------------------------------- the scanner

  /** A whitespace run leaves one space, and none at the start of the buffer. */
  function Feed(buf: string, ch: char): string {
    if !IsSpace(ch) then buf + [ch]
    else if buf != [] && buf[|buf| - 1] != ' ' then buf + " "
    else buf
  }

  /** One character of the scan. */
  function Step(st: Scan, ch: char): Scan {
    if st.Unmatched? then st
    else if ch == '{' then
      match ExternCTail(st.buf)
      case Some(k) => st.(stack := st.stack + [ExternC], buf := st.buf[..k])
      case None =>
        st.(aggOpen := if st.depth == 0 then AggTail(RStrip(st.buf)) else st.aggOpen,
            stack := st.stack + [Real], depth := st.depth + 1, buf := st.buf + [ch])
    else if ch == '(' || ch == '[' then
      st.(stack := st.stack + [Real], depth := st.depth + 1, buf := st.buf + [ch])
    else if ch == '}' then
      if st.stack == [] then Unmatched
      else if st.stack[|st.stack| - 1] == ExternC then st.(stack := st.stack[..|st.stack| - 1])
      else
        var popped := st.(stack := st.stack[..|st.stack| - 1], depth := st.depth - 1, buf := st.buf + [ch]);
        if popped.depth == 0 && !popped.aggOpen then Flush(popped) else popped
    else if ch == ')' || ch == ']' then
      if st.stack == [] then Unmatched
      else st.(stack := st.stack[..|st.stack| - 1], depth := st.depth - 1, buf := st.buf + [ch])
    else if IsSpace(ch) then st.(buf := Feed(st.buf, ch))
    else
      var fed := st.(buf := st.buf + [ch]);
      if ch == ';' && st.depth == 0 then Flush(fed) else fed
  }

  function Flush(st: Scan): Scan
    requires st.Scan?
  {
    var decl := Strip(st.buf);
    st.(decls := if decl != [] then st.decls + [decl] else st.decls, buf := [], aggOpen := false)
  }

  function Run(st: Scan, s: string): Scan
    decreases s
  {
    if s == [] then st else Run(Step(st, s[0]), s[1..])
  }

  const START := Scan([], [], 0, false, [])

  function Outcomes(st: Scan): Outcome {
    if st.Unmatched? then UnmatchedClose
    else if Strip(st.buf) != [] then Unterminated
    else Decls(st.decls)
  }

  /** What the splitter answers for a header body. */
  function Split(src: string): Outcome { Outcomes(Run(START, src)) }

  lemma {:induction false} RunUnmatched(s: string)
    ensures Run(Unmatched, s) == Unmatched
  {
    if s != [] { RunUnmatched(s[1..]); }
  }

  lemma RunTail(st: Scan, src: string, i: nat)
    requires i < |src|
    ensures Run(st, src[i..]) == Run(Step(st, src[i]), src[i + 1..])
  {
    assert src[i..][0] == src[i] && src[i..][1..] == src[i + 1..];
  }

  /** The source's loop: five variables updated in place, character by character. */
  method Flatten(src: string) returns (r: Outcome)
    ensures r == Split(src)
  {
    var decls: seq<string>, buf: string, depth, aggOpen := [], [], 0, false;
    var stack: seq<Bracket> := [];
    ghost var st, whole := START, Run(START, src);
    assert src[0..] == src;
    var i := 0;
    while i < |src|
      invariant 0 <= i <= |src|
      invariant Run(st, src[i..]) == whole
      invariant st == Scan(decls, buf, depth, aggOpen, stack)
    {
      var ch := src[i];
      RunTail(st, src, i);
      st := Step(st, ch);
      i := i + 1;
      if ch == '{' {
        var m := ExternCTail(buf);
        if m.Some? {
          stack := stack + [ExternC];
          buf := buf[..m.value];
          continue;
        }
        if depth == 0 { aggOpen := AggTail(RStrip(buf)); }
        stack, depth, buf := stack + [Real], depth + 1, buf + [ch];
      } else if ch == '(' || ch == '[' {
        stack, depth, buf := stack + [Real], depth + 1, buf + [ch];
      } else if ch == '}' {
        if stack == [] { RunUnmatched(src[i..]); return UnmatchedClose; }
        var top := stack[|stack| - 1];
        stack := stack[..|stack| - 1];
        if top == ExternC { continue; }
        depth, buf := depth - 1, buf + [ch];
        if depth == 0 && !aggOpen {
          var decl := Strip(buf);
          if decl != [] { decls := decls + [decl]; }
          buf, aggOpen := [], false;
        }
      } else if ch == ')' || ch == ']' {
        if stack == [] { RunUnmatched(src[i..]); return UnmatchedClose; }
        stack, depth, buf := stack[..|stack| - 1], depth - 1, buf + [ch];
      } else if IsSpace(ch) {
        if buf != [] && buf[|buf| - 1] != ' ' { buf := buf + " "; }
      } else {
        buf := buf + [ch];
        if ch == ';' && depth == 0 {
          var decl := Strip(buf);
          if decl != [] { decls := decls + [decl]; }
          buf, aggOpen := [], false;
        }
      }
    }
    assert src[i..] == [];
    r := if Strip(buf) != [] then Unterminated else Decls(decls);
  }

  lemma {:induction false} RunAppend(st: Scan, a: string, b: string)
    ensures Run(st, a + b) == Run(Run(st, a), b)
    decreases a
  {
    if a == [] {
      assert a + b == b;
    } else {
      assert (a + b)[0] == a[0] && (a + b)[1..] == a[1..] + b;
      RunAppend(Step(st, a[0]), a[1..], b);
    }
  }

  // ------------------------------------------------ depth and the real brackets

  function RealCount(stack: seq<Bracket>): nat {
    if stack == [] then 0 else RealCount(stack[..|stack| - 1]) + (if stack[|stack| - 1] == Real then 1 else 0)
  }

  /** A `)` or `]` that closes the brace of an `extern "C"`. */
  predicate MisCloses(st: Scan, ch: char) {
    st.Scan? && (ch == ')' || ch == ']') && st.stack != [] && st.stack[|st.stack| - 1] == ExternC
  }

  function MisCloseCount(st: Scan, s: string): nat
    decreases s
  {
    if s == [] then 0 else (if MisCloses(st, s[0]) then 1 else 0) + MisCloseCount(Step(st, s[0]), s[1..])
  }

  lemma StepLag(st: Scan, ch: char)
    requires st.Scan? && Step(st, ch).Scan?
    ensures Step(st, ch).depth - RealCount(Step(st, ch).stack)
         == st.depth - RealCount(st.stack) - (if MisCloses(st, ch) then 1 else 0)
  {
    var t := Step(st, ch).stack;
    if |t| > |st.stack| { assert t[..|t| - 1] == st.stack; }
  }

  lemma {:induction false} RunLag(st: Scan, s: string)
    requires st.Scan? && Run(st, s).Scan?
    ensures Run(st, s).depth - RealCount(Run(st, s).stack)
         == st.depth - RealCount(st.stack) - MisCloseCount(st, s)
    decreases s
  {
    if s != [] {
      var nx := Step(st, s[0]);
      if nx.Unmatched? { RunUnmatched(s[1..]); }
      StepLag(st, s[0]);
      RunLag(nx, s[1..]);
    }
  }

  /** At every step `depth` is the number of real entries on the stack, exactly
      as long as no `)` or `]` has closed a linkage brace. */
  lemma DepthIsRealCount(src: string, k: nat)
    requires k <= |src| && Run(START, src[..k]).Scan?
    ensures var st := Run(START, src[..k]);
            st.depth == RealCount(st.stack) <==> MisCloseCount(START, src[..k]) == 0
  {
    RunLag(START, src[..k]);
  }
}
