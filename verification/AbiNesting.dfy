/** The groups a line of a header stands in, said of the openers and closers above it. */
module AbiNesting {
  import opened AbiIncludes

  /** Openers less closers from line `a` up to line `b`. */
  ghost function Balance(lines: seq<Line>, a: nat, b: nat): int
    requires a <= b <= |lines|
  {
    if a == b then 0 else Balance(lines, a, b - 1) + (if lines[b - 1].Open? then 1 else if lines[b - 1].Close? then -1 else 0)
  }

  /** The group opened at line `g` is still open before line `i`: from it on
      the openers have always outnumbered the closers. */
  ghost predicate StillOpen(lines: seq<Line>, g: int, i: nat)
    requires i <= |lines|
  {
    0 <= g < i && lines[g].Open? && forall j :: g < j <= i ==> Balance(lines, g, j) >= 1
  }

  /** One of the group's later arms has begun: an `#else` or `#elif` of its own. */
  ghost predicate LaterArm(lines: seq<Line>, g: int, i: nat)
    requires 0 <= g < i <= |lines|
  {
    exists k :: g < k < i && lines[k].Else? && Balance(lines, g, k) == 1
  }

  ghost predicate EntryHolds(s: seq<(nat, bool)>, lines: seq<Line>, i: nat, n: nat)
    requires i <= |lines| && n < |s|
  {
    && StillOpen(lines, s[n].0, i)
    && Balance(lines, s[n].0, i) == |s| - n
    && (s[n].1 <==> LaterArm(lines, s[n].0, i))
  }

  ghost predicate Describes(s: seq<(nat, bool)>, lines: seq<Line>, i: nat)
    requires i <= |lines|
  {
    forall n :: 0 <= n < |s| ==> EntryHolds(s, lines, i, n)
  }

  ghost predicate Listed(s: seq<(nat, bool)>, g: int) { exists n :: 0 <= n < |s| && s[n].0 == g }

  ghost predicate OutermostFirst(s: seq<(nat, bool)>) { forall m, n :: 0 <= m < n < |s| ==> s[m].0 < s[n].0 }

  /** The scan's stack holds exactly the groups still open, outermost first, each with
      whether a later arm of it has begun. */
  lemma {:induction false} NestExact(lines: seq<Line>, i: nat)
    requires i <= |lines|
    ensures Describes(StackAt(lines, i), lines, i) && OutermostFirst(StackAt(lines, i))
    ensures forall g :: StillOpen(lines, g, i) ==> Listed(StackAt(lines, i), g)
  {
    if i > 0 {
      NestExact(lines, i - 1);
      forall n | 0 <= n < |StackAt(lines, i)| ensures EntryHolds(StackAt(lines, i), lines, i, n) { EntryStep(lines, i, n); }
      forall g | StillOpen(lines, g, i) ensures Listed(StackAt(lines, i), g) {
        if g < i - 1 { assert StillOpen(lines, g, i - 1); }
        OpenStep(lines, i, g);
      }
      OrderStep(lines, i);
    }
  }

  lemma OrderStep(lines: seq<Line>, i: nat)
    requires 0 < i <= |lines| && OutermostFirst(StackAt(lines, i - 1))
    ensures OutermostFirst(StackAt(lines, i))
  {
    StackBelow(lines, i - 1);
  }

  lemma EntryStep(lines: seq<Line>, i: nat, n: nat)
    requires 0 < i <= |lines| && n < |StackAt(lines, i)|
    requires Describes(StackAt(lines, i - 1), lines, i - 1)
    ensures EntryHolds(StackAt(lines, i), lines, i, n)
  {
    var was, now := StackAt(lines, i - 1), StackAt(lines, i);
    if n < |was| {
      var g := was[n].0;
      assert now[n].0 == g;
      assert EntryHolds(was, lines, i - 1, n);
      assert StillOpen(lines, g, i - 1);
      assert Balance(lines, g, i - 1) == |was| - n;
      ArmStep(lines, g, i);
    } else {
      assert now[n] == (i - 1, false);
    }
  }

  lemma ArmStep(lines: seq<Line>, g: nat, i: nat)
    requires g < i - 1 < |lines|
    ensures LaterArm(lines, g, i) <==> LaterArm(lines, g, i - 1) || (lines[i - 1].Else? && Balance(lines, g, i - 1) == 1)
  {
    if LaterArm(lines, g, i - 1) {
      var k :| g < k < i - 1 && lines[k].Else? && Balance(lines, g, k) == 1;
      assert g < k < i;
    }
  }

  lemma OpenStep(lines: seq<Line>, i: nat, g: nat)
    requires 0 < i <= |lines| && StillOpen(lines, g, i)
    requires Describes(StackAt(lines, i - 1), lines, i - 1) && (g < i - 1 ==> Listed(StackAt(lines, i - 1), g))
    ensures Listed(StackAt(lines, i), g)
  {
    var was, now := StackAt(lines, i - 1), StackAt(lines, i);
    if g == i - 1 {
      assert now[|was|].0 == g;
    } else {
      assert StillOpen(lines, g, i - 1);
      var n :| 0 <= n < |was| && was[n].0 == g;
      assert EntryHolds(was, lines, i - 1, n);
      assert Balance(lines, g, i) >= 1;
      assert Balance(lines, g, i - 1) == |was| - n;
      assert now[n].0 == g;
    }
  }
}
