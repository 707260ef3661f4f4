/** Which includes of a header every consumer gets: the preprocessor-depth scan behind
    the snapshot's include graph. Lines come classified; conditions are never evaluated. */
module AbiIncludes {
  import opened PyText

  /** `Open` starts a conditional group and holds the token of a bare `#ifndef TOK`;
      `Else` is any later arm of a group. */
  datatype Line = Open(tok: Option<string>) | Define(name: string) | Close | Else | Include(target: string) | Blank | Text

  // --------------------------------------------------------------- the true nesting

  /** The groups open before a line, innermost last, each with its first line and
      whether one of its later arms has begun. */
  function Step(stack: seq<(nat, bool)>, i: nat, line: Line): seq<(nat, bool)> {
    match line
    case Open(_) => stack + [(i, false)]
    case Close => if stack == [] then [] else stack[..|stack| - 1]
    case Else => if stack == [] then [] else stack[..|stack| - 1] + [(stack[|stack| - 1].0, true)]
    case _ => stack
  }

  function StackAt(lines: seq<Line>, i: nat): seq<(nat, bool)>
    requires i <= |lines|
  {
    if i == 0 then [] else Step(StackAt(lines, i - 1), i - 1, lines[i - 1])
  }

  // ------------------------------------------------------------------- the guard

  /** The first line at or after `i` that is not blank. */
  function Skip(lines: seq<Line>, i: nat): (j: nat)
    requires i <= |lines|
    ensures i <= j <= |lines| && (j < |lines| ==> !lines[j].Blank?) && forall k :: i <= k < j ==> lines[k].Blank?
    decreases |lines| - i
  {
    if i < |lines| && lines[i].Blank? then Skip(lines, i + 1) else i
  }

  /** `#ifndef X` whose next non-blank line is `#define X`. */
  predicate GuardPair(lines: seq<Line>, i: nat) {
    && i < |lines| && lines[i].Open? && lines[i].tok.Some?
    && var j := Skip(lines, i + 1);
       j < |lines| && lines[j] == Define(lines[i].tok.value)
  }

  /** The first guard pair of the file. */
  function FindGuard(lines: seq<Line>, i: nat): (g: Option<nat>)
    requires i <= |lines|
    ensures g.Some? ==> i <= g.value && GuardPair(lines, g.value)
    ensures g.None? ==> forall k :: i <= k < |lines| ==> !GuardPair(lines, k)
    ensures g.Some? ==> forall k :: i <= k < g.value ==> !GuardPair(lines, k)
    decreases |lines| - i
  {
    if i == |lines| then None else if GuardPair(lines, i) then Some(i) else FindGuard(lines, i + 1)
  }

  function GuardTok(lines: seq<Line>): Option<string> {
    var g := FindGuard(lines, 0);
    if g.Some? then lines[g.value].tok else None
  }

  predicate IsGuardOpen(lines: seq<Line>, i: nat, tok: string) {
    i + 1 < |lines| && lines[i] == Open(Some(tok)) && lines[i + 1] == Define(tok)
  }

  /** The depth of the last guard opener above line `i`, 0 when there is none. */
  function GuardDepth(lines: seq<Line>, tok: Option<string>, i: nat): nat
    requires i <= |lines|
  {
    if i == 0 then 0
    else if tok.Some? && IsGuardOpen(lines, i - 1, tok.value) then |StackAt(lines, i)|
    else GuardDepth(lines, tok, i - 1)
  }

  // -------------------------------------------------------------------- the scan

  /** The scan lets an include at line `i` through. */
  predicate Counted(lines: seq<Line>, i: nat)
    requires i <= |lines|
  {
    |StackAt(lines, i)| <= GuardDepth(lines, GuardTok(lines), i)
  }

  function Kept(lines: seq<Line>, n: nat): seq<string>
    requires n <= |lines|
  {
    if n == 0 then []
    else Kept(lines, n - 1) + if lines[n - 1].Include? && Counted(lines, n - 1) then [lines[n - 1].target] else []
  }

  method UnconditionalIncludes(lines: seq<Line>) returns (found: seq<string>)
    ensures found == Kept(lines, |lines|)
  {
    found := [];
    var depth, guard_depth := 0, 0;
    var tok := GuardTok(lines);
    for i := 0 to |lines|
      invariant depth == |StackAt(lines, i)| && guard_depth == GuardDepth(lines, tok, i)
      invariant found == Kept(lines, i)
    {
      var line := lines[i];
      if line.Open? {
        depth := depth + 1;
        if tok.Some? && IsGuardOpen(lines, i, tok.value) { guard_depth := depth; }
      } else if line.Close? {
        depth := if depth == 0 then 0 else depth - 1;
      } else if depth <= guard_depth {
        if line.Include? { found := found + [line.target]; }
      }
    }
  }

  // -------------------------------------------------------- what it should report

  /** Outside every group, or in the first arm of the include guard and in no other. */
  predicate Unconditional(lines: seq<Line>, i: nat)
    requires i <= |lines|
  {
    var s := StackAt(lines, i);
    s == [] || (FindGuard(lines, 0).Some? && s == [(FindGuard(lines, 0).value, false)])
  }

  function Expected(lines: seq<Line>, n: nat): seq<string>
    requires n <= |lines|
  {
    if n == 0 then []
    else Expected(lines, n - 1) + if lines[n - 1].Include? && Unconditional(lines, n - 1) then [lines[n - 1].target] else []
  }

  lemma {:induction false} StackBelow(lines: seq<Line>, i: nat)
    requires i <= |lines|
    ensures forall k :: 0 <= k < |StackAt(lines, i)| ==> StackAt(lines, i)[k].0 < i
  {
    if i > 0 { StackBelow(lines, i - 1); }
  }

  // ------------------------------------------------------ the exact condition

  /** The last line above `i` on which the scan sees the guard open. */
  function LastOpener(lines: seq<Line>, tok: string, i: nat): (o: Option<nat>)
    requires i <= |lines|
    ensures o.Some? ==> o.value < i && IsGuardOpen(lines, o.value, tok) && forall k :: o.value < k < i ==> !IsGuardOpen(lines, k, tok)
    ensures o.None? ==> forall k :: 0 <= k < i ==> !IsGuardOpen(lines, k, tok)
  {
    if i == 0 then None else if IsGuardOpen(lines, i - 1, tok) then Some(i - 1) else LastOpener(lines, tok, i - 1)
  }

  /** The same for the file's own guard token; none when it has no guard pair. */
  function OpenerAbove(lines: seq<Line>, i: nat): Option<nat>
    requires i <= |lines|
  {
    if GuardTok(lines).None? then None else LastOpener(lines, GuardTok(lines).value, i)
  }

  lemma {:induction false} DepthOfOpener(lines: seq<Line>, tok: Option<string>, i: nat)
    requires i <= |lines|
    ensures GuardDepth(lines, tok, i) ==
            if tok.None? || LastOpener(lines, tok.value, i).None? then 0 else |StackAt(lines, LastOpener(lines, tok.value, i).value)| + 1
  {
    if i > 0 {
      if tok.Some? && IsGuardOpen(lines, i - 1, tok.value) {
        assert StackAt(lines, i) == StackAt(lines, i - 1) + [(i - 1, false)];
      } else {
        DepthOfOpener(lines, tok, i - 1);
      }
    }
  }

  /** An include that stands in some group besides the guard's first arm, and in no more
      groups than the last opener above it opened into. */
  predicate Leaks(lines: seq<Line>, i: nat)
    requires i < |lines|
  {
    && lines[i].Include? && !Unconditional(lines, i)
    && OpenerAbove(lines, i).Some? && |StackAt(lines, i)| <= |StackAt(lines, OpenerAbove(lines, i).value)| + 1
  }

  /** An include of the guard's first arm with no opener above it: the guard's `#define`
      does not follow on the next line. */
  predicate Drops(lines: seq<Line>, i: nat)
    requires i < |lines|
  {
    && lines[i].Include? && FindGuard(lines, 0).Some? && StackAt(lines, i) == [(FindGuard(lines, 0).value, false)]
    && OpenerAbove(lines, i).None?
  }

  lemma CountedExact(lines: seq<Line>, i: nat)
    requires i < |lines| && lines[i].Include?
    ensures Counted(lines, i) && !Unconditional(lines, i) <==> Leaks(lines, i)
    ensures !Counted(lines, i) && Unconditional(lines, i) <==> Drops(lines, i)
  {
    DepthOfOpener(lines, GuardTok(lines), i);
  }

  /** An unconditional include is reported if and only if it stands in no group or below
      some opener. */
  lemma UnconditionalCounted(lines: seq<Line>, i: nat)
    requires i <= |lines| && Unconditional(lines, i)
    ensures Counted(lines, i) <==> StackAt(lines, i) == [] || OpenerAbove(lines, i).Some?
  {
    DepthOfOpener(lines, GuardTok(lines), i);
  }

  /** The marked indices below `n`. */
  function Pick(marks: seq<bool>, n: nat): (at: seq<nat>)
    requires n <= |marks|
    ensures forall k :: 0 <= k < |at| ==> at[k] < n && marks[at[k]]
  {
    if n == 0 then [] else Pick(marks, n - 1) + if marks[n - 1] then [n - 1] else []
  }

  lemma {:induction false} PickExact(f: seq<bool>, g: seq<bool>, n: nat)
    requires n <= |f| == |g|
    ensures Pick(f, n) == Pick(g, n) <==> forall i :: 0 <= i < n ==> f[i] == g[i]
  {
    if n > 0 {
      PickExact(f, g, n - 1);
      var p, q := Pick(f, n - 1), Pick(g, n - 1);
      assert n - 1 in Pick(f, n) <==> f[n - 1];
      assert n - 1 in Pick(g, n) <==> g[n - 1];
      if Pick(f, n) == Pick(g, n) { assert p == Pick(f, n)[..|p|] && q == Pick(g, n)[..|q|]; }
    }
  }

  lemma {:induction false} PickCounts(f: seq<bool>, g: seq<bool>, n: nat)
    requires n <= |f| == |g| && forall i :: 0 <= i < n ==> f[i] ==> g[i]
    ensures |Pick(f, n)| <= |Pick(g, n)|
    ensures |Pick(f, n)| == |Pick(g, n)| <==> forall i :: 0 <= i < n ==> f[i] == g[i]
  {
    if n > 0 { PickCounts(f, g, n - 1); }
  }

  function KeptMarks(lines: seq<Line>): (marks: seq<bool>)
    ensures |marks| == |lines| && forall i :: 0 <= i < |lines| ==> marks[i] == (lines[i].Include? && Counted(lines, i))
  {
    seq(|lines|, i requires 0 <= i < |lines| => lines[i].Include? && Counted(lines, i))
  }

  function ExpectedMarks(lines: seq<Line>): (marks: seq<bool>)
    ensures |marks| == |lines| && forall i :: 0 <= i < |lines| ==> marks[i] == (lines[i].Include? && Unconditional(lines, i))
  {
    seq(|lines|, i requires 0 <= i < |lines| => lines[i].Include? && Unconditional(lines, i))
  }

  /** The lines reported, and the lines that should be. */
  function KeptAt(lines: seq<Line>): seq<nat> { Pick(KeptMarks(lines), |lines|) }

  function ExpectedAt(lines: seq<Line>): seq<nat> { Pick(ExpectedMarks(lines), |lines|) }

  function Targets(lines: seq<Line>, marks: seq<bool>, n: nat): (r: seq<string>)
    requires n <= |lines| == |marks| && forall i :: 0 <= i < n && marks[i] ==> lines[i].Include?
    ensures |r| == |Pick(marks, n)|
  {
    if n == 0 then [] else Targets(lines, marks, n - 1) + if marks[n - 1] then [lines[n - 1].target] else []
  }

  lemma KeptOne(lines: seq<Line>, marks: seq<bool>, i: nat)
    requires i < |lines| && marks == KeptMarks(lines)
    ensures Kept(lines, i + 1) == Kept(lines, i) + if marks[i] then [lines[i].target] else []
    ensures marks[i] ==> lines[i].Include?
  {
  }

  lemma {:induction false} KeptReads(lines: seq<Line>, marks: seq<bool>, n: nat)
    requires n <= |lines| && marks == KeptMarks(lines)
    ensures Kept(lines, n) == Targets(lines, marks, n)
  {
    if n > 0 {
      KeptReads(lines, marks, n - 1);
      KeptOne(lines, marks, n - 1);
    }
  }

  lemma ExpectedOne(lines: seq<Line>, marks: seq<bool>, i: nat)
    requires i < |lines| && marks == ExpectedMarks(lines)
    ensures Expected(lines, i + 1) == Expected(lines, i) + if marks[i] then [lines[i].target] else []
    ensures marks[i] ==> lines[i].Include?
  {
  }

  lemma {:induction false} ExpectedReads(lines: seq<Line>, marks: seq<bool>, n: nat)
    requires n <= |lines| && marks == ExpectedMarks(lines)
    ensures Expected(lines, n) == Targets(lines, marks, n)
  {
    if n > 0 {
      ExpectedReads(lines, marks, n - 1);
      ExpectedOne(lines, marks, n - 1);
    }
  }

  ghost predicate SomeLeak(lines: seq<Line>) { exists i :: 0 <= i < |lines| && Leaks(lines, i) }

  ghost predicate SomeDrop(lines: seq<Line>) { exists i :: 0 <= i < |lines| && Drops(lines, i) }

  lemma MarksDiffer(lines: seq<Line>, i: nat)
    requires i < |lines|
    ensures KeptMarks(lines)[i] && !ExpectedMarks(lines)[i] <==> Leaks(lines, i)
    ensures !KeptMarks(lines)[i] && ExpectedMarks(lines)[i] <==> Drops(lines, i)
  {
    if lines[i].Include? { CountedExact(lines, i); }
  }

  /** On every file, the scan reports exactly the lines it should if and only if no
      include leaks and none is dropped. */
  lemma ScanExact(lines: seq<Line>)
    ensures KeptAt(lines) == ExpectedAt(lines) <==> !SomeLeak(lines) && !SomeDrop(lines)
  {
    PickExact(KeptMarks(lines), ExpectedMarks(lines), |lines|);
    forall i | 0 <= i < |lines| ensures KeptMarks(lines)[i] == ExpectedMarks(lines)[i] <==> !Leaks(lines, i) && !Drops(lines, i) {
      MarksDiffer(lines, i);
    }
  }

  /** And then the targets read are the targets that should be. */
  lemma ScanReads(lines: seq<Line>)
    requires !SomeLeak(lines) && !SomeDrop(lines)
    ensures Kept(lines, |lines|) == Expected(lines, |lines|)
  {
    forall i | 0 <= i < |lines| ensures KeptMarks(lines)[i] == ExpectedMarks(lines)[i] { MarksDiffer(lines, i); }
    assert KeptMarks(lines) == ExpectedMarks(lines);
    KeptReads(lines, KeptMarks(lines), |lines|);
    ExpectedReads(lines, ExpectedMarks(lines), |lines|);
  }

  /** The file has no guard pair, or its `#define` is on the very next line. */
  predicate PlainGuard(lines: seq<Line>) {
    var g := FindGuard(lines, 0);
    g.Some? ==> IsGuardOpen(lines, g.value, lines[g.value].tok.value)
  }

  /** With such a guard nothing is dropped: the list of targets is right, or too long. */
  lemma PlainScan(lines: seq<Line>)
    requires PlainGuard(lines)
    ensures !SomeDrop(lines)
    ensures |Expected(lines, |lines|)| <= |Kept(lines, |lines|)|
    ensures Kept(lines, |lines|) == Expected(lines, |lines|) <==> !SomeLeak(lines)
  {
    forall i | 0 <= i < |lines| ensures !Drops(lines, i) { PlainNoDrop(lines, i); }
    var k, e := KeptMarks(lines), ExpectedMarks(lines);
    forall i | 0 <= i < |lines| ensures (e[i] ==> k[i]) && (k[i] == e[i] <==> !Leaks(lines, i)) { MarksDiffer(lines, i); }
    PickCounts(e, k, |lines|);
    KeptReads(lines, k, |lines|);
    ExpectedReads(lines, e, |lines|);
    if !SomeLeak(lines) { ScanReads(lines); }
  }

  lemma PlainNoDrop(lines: seq<Line>, i: nat)
    requires i < |lines| && PlainGuard(lines)
    ensures !Drops(lines, i)
  {
    StackBelow(lines, i);
    var g := FindGuard(lines, 0);
    if g.Some? && StackAt(lines, i) == [(g.value, false)] { assert StackAt(lines, i)[0].0 == g.value; }
  }

  /** With no opener at all the scan reports the includes outside every group: right, or
      too few, and right if and only if no include stands in the guard's first arm. */
  lemma NoOpenerScan(lines: seq<Line>)
    requires OpenerAbove(lines, |lines|).None?
    ensures !SomeLeak(lines)
    ensures |Kept(lines, |lines|)| <= |Expected(lines, |lines|)|
    ensures Kept(lines, |lines|) == Expected(lines, |lines|) <==>
            forall i :: 0 <= i < |lines| && lines[i].Include? ==> StackAt(lines, i) == [] || !Unconditional(lines, i)
  {
    forall i | 0 <= i < |lines| ensures OpenerAbove(lines, i).None? { NoOpenerBefore(lines, i); }
    forall i | 0 <= i < |lines| ensures !Leaks(lines, i) { assert OpenerAbove(lines, i).None?; }
    var k, e := KeptMarks(lines), ExpectedMarks(lines);
    forall i | 0 <= i < |lines| ensures (k[i] ==> e[i]) && (k[i] == e[i] <==> !Drops(lines, i)) { MarksDiffer(lines, i); }
    PickCounts(k, e, |lines|);
    KeptReads(lines, k, |lines|);
    ExpectedReads(lines, e, |lines|);
    if !SomeDrop(lines) { ScanReads(lines); }
    forall i | 0 <= i < |lines| && lines[i].Include? ensures !Drops(lines, i) <==> StackAt(lines, i) == [] || !Unconditional(lines, i) {
      assert OpenerAbove(lines, i).None?;
    }
  }

  lemma NoOpenerBefore(lines: seq<Line>, i: nat)
    requires i <= |lines| && OpenerAbove(lines, |lines|).None?
    ensures OpenerAbove(lines, i).None?
  {
  }

  lemma {:induction false} NoGuardDepth(lines: seq<Line>, tok: Option<string>, i: nat)
    requires i <= |lines| && (tok.Some? ==> forall k :: 0 <= k < i ==> !IsGuardOpen(lines, k, tok.value))
    ensures GuardDepth(lines, tok, i) == 0
  {
    if i > 0 { NoGuardDepth(lines, tok, i - 1); }
  }

  /** Without a guard the scan is exact on every file, balanced or not. */
  lemma NoGuardExact(lines: seq<Line>)
    requires FindGuard(lines, 0).None?
    ensures Kept(lines, |lines|) == Expected(lines, |lines|)
  {
    assert forall i :: 0 <= i < |lines| ==> !Leaks(lines, i) && !Drops(lines, i);
    ScanReads(lines);
  }

  /** One guard around the whole file: nothing conditional above or below it, no other
      arm of its own, and no second opener with its token. */
  ghost predicate WholeFileGuard(lines: seq<Line>, g: nat) {
    && FindGuard(lines, 0) == Some(g)
    && IsGuardOpen(lines, g, lines[g].tok.value)
    && StackAt(lines, g) == []
    && (forall i :: g < i < |lines| ==> !IsGuardOpen(lines, i, lines[g].tok.value))
    && (forall i :: g < i < |lines| && StackAt(lines, i) == [] ==> !lines[i].Open?)
    && (forall i :: g < i < |lines| && |StackAt(lines, i)| == 1 ==> !lines[i].Else?)
  }

  lemma {:induction false} GuardAtBottom(lines: seq<Line>, g: nat, i: nat)
    requires WholeFileGuard(lines, g) && g < i <= |lines|
    ensures StackAt(lines, i) == [] || StackAt(lines, i)[0] == (g, false)
  {
    if i > g + 1 {
      GuardAtBottom(lines, g, i - 1);
      BottomStays(StackAt(lines, i - 1), (g, false), i - 1, lines[i - 1]);
    }
  }

  lemma BottomStays(stack: seq<(nat, bool)>, e: (nat, bool), i: nat, l: Line)
    requires if stack == [] then !l.Open? else stack[0] == e && (|stack| == 1 ==> !l.Else?)
    ensures Step(stack, i, l) == [] || Step(stack, i, l)[0] == e
  {
  }

  lemma {:induction false} OneGuardDepth(lines: seq<Line>, g: nat, i: nat)
    requires WholeFileGuard(lines, g) && i <= |lines|
    ensures GuardDepth(lines, lines[g].tok, i) == if i > g then 1 else 0
  {
    var tok := lines[g].tok.value;
    if i <= g {
      forall k | 0 <= k < i ensures !IsGuardOpen(lines, k, tok) { OpenerIsPair(lines, k, tok); }
      NoGuardDepth(lines, lines[g].tok, i);
    } else if i == g + 1 {
      assert StackAt(lines, i) == [(g, false)];
    } else {
      OneGuardDepth(lines, g, i - 1);
    }
  }

  lemma OpenerIsPair(lines: seq<Line>, k: nat, tok: string)
    ensures IsGuardOpen(lines, k, tok) ==> GuardPair(lines, k)
  {
    if IsGuardOpen(lines, k, tok) { assert Skip(lines, k + 1) == k + 1; }
  }

  /** Under a whole-file guard the scan reports exactly the unconditional includes. */
  lemma WholeFileExact(lines: seq<Line>, g: nat)
    requires WholeFileGuard(lines, g)
    ensures Kept(lines, |lines|) == Expected(lines, |lines|)
  {
    forall i | 0 <= i < |lines| ensures !Leaks(lines, i) {
      if lines[i].Include? {
        CountedExact(lines, i);
        OneGuardDepth(lines, g, i);
        if i > g { GuardAtBottom(lines, g, i); }
      }
    }
    PlainScan(lines);
  }

  lemma GuardStarts(lines: seq<Line>, tok: string)
    requires |lines| >= 2 && lines[0] == Open(Some(tok)) && lines[1] == Define(tok)
    ensures FindGuard(lines, 0) == Some(0) && GuardTok(lines) == Some(tok)
    ensures StackAt(lines, 2) == [(0, false)] && GuardDepth(lines, Some(tok), 2) == 1
  {
    assert Skip(lines, 1) == 1;
    assert StackAt(lines, 0) == [];
    assert StackAt(lines, 1) == [(0, false)];
    assert GuardDepth(lines, Some(tok), 1) == 1;
  }

  lemma {:induction false} NoIncludes(lines: seq<Line>, n: nat)
    requires n <= |lines| && forall i :: 0 <= i < n ==> !lines[i].Include?
    ensures Kept(lines, n) == [] && Expected(lines, n) == []
  {
    if n > 0 { NoIncludes(lines, n - 1); }
  }

  // --------------------------------------------------- shapes the scan misreads

  /** A conditional below the guard's end sits at the guard's depth and leaks. */
  lemma ConditionalAfterGuard(tok: string, target: string)
    ensures var lines := [Open(Some(tok)), Define(tok), Close, Open(None), Include(target), Close];
            Kept(lines, 6) == [target] && Expected(lines, 6) == []
  {
    var lines := [Open(Some(tok)), Define(tok), Close, Open(None), Include(target), Close];
    GuardStarts(lines, tok);
    assert StackAt(lines, 3) == [];
    assert StackAt(lines, 4) == [(3, false)];
    var t := Some(tok);
    assert GuardDepth(lines, t, 3) == 1;
    assert GuardDepth(lines, t, 4) == 1;
    assert Counted(lines, 4) && !Unconditional(lines, 4);
    NoIncludes(lines, 4);
    assert Kept(lines, 5) == [target] && Expected(lines, 5) == [];
  }

  /** An include in the guard's `#else` arm, taken only on a second inclusion, leaks. */
  lemma ElseOfGuard(tok: string, target: string)
    ensures var lines := [Open(Some(tok)), Define(tok), Else, Include(target), Close];
            Kept(lines, 5) == [target] && Expected(lines, 5) == []
  {
    var lines := [Open(Some(tok)), Define(tok), Else, Include(target), Close];
    GuardStarts(lines, tok);
    assert StackAt(lines, 3) == [(0, true)];
    var t := Some(tok);
    assert GuardDepth(lines, t, 3) == 1;
    assert Counted(lines, 3) && !Unconditional(lines, 3);
    NoIncludes(lines, 3);
    assert Kept(lines, 4) == [target] && Expected(lines, 4) == [];
  }

  /** A second opener with the guard's token, inside a conditional, lets that
      conditional's includes through. */
  lemma SecondOpener(tok: string, target: string)
    ensures var lines := [Open(Some(tok)), Define(tok), Open(None), Open(Some(tok)), Define(tok), Close, Include(target)];
            Kept(lines, 7) == [target] && Expected(lines, 7) == []
  {
    var lines := [Open(Some(tok)), Define(tok), Open(None), Open(Some(tok)), Define(tok), Close, Include(target)];
    GuardStarts(lines, tok);
    assert StackAt(lines, 3) == [(0, false), (2, false)];
    assert StackAt(lines, 4) == [(0, false), (2, false), (3, false)];
    assert StackAt(lines, 5) == [(0, false), (2, false), (3, false)];
    assert StackAt(lines, 6) == [(0, false), (2, false)];
    var t := Some(tok);
    assert GuardDepth(lines, t, 4) == 3;
    assert GuardDepth(lines, t, 5) == 3;
    assert GuardDepth(lines, t, 6) == 3;
    assert Counted(lines, 6) && !Unconditional(lines, 6);
    NoIncludes(lines, 6);
  }

  /** A blank line between the guard's two lines hides the guard from the scan, which
      then drops what the guard holds. */
  lemma BlankInGuard(tok: string, target: string)
    ensures var lines := [Open(Some(tok)), Blank, Define(tok), Include(target), Close];
            Kept(lines, 5) == [] && Expected(lines, 5) == [target]
  {
    var lines := [Open(Some(tok)), Blank, Define(tok), Include(target), Close];
    assert Skip(lines, 2) == 2;
    assert Skip(lines, 1) == 2;
    assert FindGuard(lines, 0) == Some(0);
    assert StackAt(lines, 0) == [];
    assert StackAt(lines, 1) == [(0, false)];
    assert StackAt(lines, 2) == [(0, false)];
    assert StackAt(lines, 3) == [(0, false)];
    var t := Some(tok);
    assert GuardDepth(lines, t, 1) == 0;
    assert GuardDepth(lines, t, 2) == 0;
    assert GuardDepth(lines, t, 3) == 0;
    assert Unconditional(lines, 3) && !Counted(lines, 3);
    NoIncludes(lines, 3);
    assert Kept(lines, 4) == [] && Expected(lines, 4) == [target];
  }

  /** And a later opener with the token, under a conditional, then lets that
      conditional's include through: the blank line is not safe either. */
  lemma BlankGuardLeaks(tok: string, target: string)
    ensures var lines := [Open(Some(tok)), Blank, Define(tok), Open(None), Open(Some(tok)), Define(tok), Close, Include(target), Close, Close];
            FindGuard(lines, 0) == Some(0) && Kept(lines, 10) == [target] && Expected(lines, 10) == []
  {
    var lines := [Open(Some(tok)), Blank, Define(tok), Open(None), Open(Some(tok)), Define(tok), Close, Include(target), Close, Close];
    assert Skip(lines, 2) == 2;
    assert Skip(lines, 1) == 2;
    assert FindGuard(lines, 0) == Some(0);
    assert StackAt(lines, 0) == [];
    assert StackAt(lines, 1) == [(0, false)];
    assert StackAt(lines, 3) == [(0, false)] by { assert StackAt(lines, 2) == [(0, false)]; }
    assert StackAt(lines, 4) == [(0, false), (3, false)];
    assert StackAt(lines, 5) == [(0, false), (3, false), (4, false)];
    assert StackAt(lines, 6) == [(0, false), (3, false), (4, false)];
    assert StackAt(lines, 7) == [(0, false), (3, false)];
    var t := Some(tok);
    assert GuardDepth(lines, t, 5) == 3;
    assert GuardDepth(lines, t, 6) == 3;
    assert GuardDepth(lines, t, 7) == 3;
    assert Counted(lines, 7) && !Unconditional(lines, 7);
    NoIncludes(lines, 7);
    assert Kept(lines, 8) == [target] && Expected(lines, 8) == [];
    assert Kept(lines, 9) == [target] && Expected(lines, 9) == [];
  }
}
