/** Replacing disjoint spans of a text: the simultaneous meaning, the forward
    splice that builds the result, and the back-to-front in-place edit. */
module Splice {
  import opened PyText

  datatype Edit = Edit(s: nat, e: nat, repl: string)

  /** The edits lie in `[last, n)`, in order, without overlap. */
  ghost predicate Ordered(edits: seq<Edit>, last: nat, n: nat)
    decreases edits
  {
    if edits == [] then last <= n
    else last <= edits[0].s <= edits[0].e <= n && Ordered(edits[1..], edits[0].e, n)
  }

  /** The rest of the text from `last` on with every edit made at once: the text
      between edits, each edited span replaced. */
  ghost function Splice(text: string, last: nat, edits: seq<Edit>): string
    requires Ordered(edits, last, |text|)
    decreases edits
  {
    if edits == [] then text[last..]
    else text[last..edits[0].s] + edits[0].repl + Splice(text, edits[0].e, edits[1..])
  }

  lemma {:induction false} OrderedEnds(edits: seq<Edit>, last: nat, n: nat)
    requires Ordered(edits, last, n)
    ensures last <= n
    ensures forall i :: 0 <= i < |edits| ==> last <= edits[i].s <= edits[i].e <= n
    ensures forall i, j :: 0 <= i < j < |edits| ==> edits[i].e <= edits[j].s
    decreases edits
  {
    if edits != [] {
      OrderedEnds(edits[1..], edits[0].e, n);
      forall i | 0 <= i < |edits| ensures last <= edits[i].s <= edits[i].e <= n {
        if i > 0 { assert edits[i] == edits[1..][i - 1]; }
      }
      forall i, j | 0 <= i < j < |edits| ensures edits[i].e <= edits[j].s {
        assert edits[j] == edits[1..][j - 1];
        if i > 0 { assert edits[i] == edits[1..][i - 1]; }
      }
    }
  }

  lemma {:induction false} OrderedSnoc(edits: seq<Edit>, x: Edit, last: nat, n: nat)
    ensures Ordered(edits + [x], last, n) <==>
            Ordered(edits, last, if x.s <= n then x.s else n) && x.s <= x.e <= n
    decreases edits
  {
    if edits == [] {
      assert edits + [x] == [x] && [x][1..] == [];
    } else {
      assert (edits + [x])[0] == edits[0] && (edits + [x])[1..] == edits[1..] + [x];
      OrderedSnoc(edits[1..], x, edits[0].e, n);
    }
  }

  lemma {:induction false} OrderedWiden(edits: seq<Edit>, last: nat, n: nat, m: nat)
    requires Ordered(edits, last, n) && n <= m
    ensures Ordered(edits, last, m)
    decreases edits
  {
    if edits != [] { OrderedWiden(edits[1..], edits[0].e, n, m); }
  }

  lemma OrderedCons(x: Edit, rest: seq<Edit>, last: nat, n: nat)
    requires last <= x.s <= x.e <= n && Ordered(rest, x.e, n) && Bounded(rest, n)
    ensures Ordered([x] + rest, last, n) && Bounded([x] + rest, n)
  {
    assert ([x] + rest)[1..] == rest;
  }

  function EditOne(text: string, x: Edit): string
    requires x.s <= x.e <= |text|
  {
    text[..x.s] + x.repl + text[x.e..]
  }

  lemma EditKeepsBefore(text: string, x: Edit, a: nat, b: nat)
    requires a <= b <= x.s <= x.e <= |text|
    ensures |EditOne(text, x)| >= x.s && EditOne(text, x)[a..b] == text[a..b]
  {
    var t := EditOne(text, x);
    assert t[..x.s] == text[..x.s];
    assert t[..x.s][a..b] == t[a..b];
    assert text[..x.s][a..b] == text[a..b];
  }

  lemma OrderedStart(edits: seq<Edit>, last: nat, n: nat)
    requires Ordered(edits, last, n) && edits != []
    ensures last <= edits[0].s <= edits[0].e <= n
  {
    OrderedEnds(edits, last, n);
  }

  /** Making the last edit first leaves the remaining splice unchanged: the spans to
      its left keep their positions. */
  lemma {:induction false} SpliceLast(text: string, last: nat, edits: seq<Edit>, x: Edit)
    requires Ordered(edits + [x], last, |text|)
    ensures x.s <= x.e <= |text| && Ordered(edits, last, x.s) && Ordered(edits, last, |EditOne(text, x)|)
    ensures Splice(text, last, edits + [x]) == Splice(EditOne(text, x), last, edits)
    decreases edits
  {
    OrderedSnoc(edits, x, last, |text|);
    var t := EditOne(text, x);
    OrderedWiden(edits, last, x.s, |t|);
    if edits == [] {
      assert edits + [x] == [x] && [x][1..] == [];
      assert t[last..] == text[last..x.s] + x.repl + text[x.e..];
    } else {
      assert (edits + [x])[0] == edits[0] && (edits + [x])[1..] == edits[1..] + [x];
      SpliceLast(text, edits[0].e, edits[1..], x);
      OrderedStart(edits, last, x.s);
      EditKeepsBefore(text, x, last, edits[0].s);
    }
  }

  lemma OrderedPrefix(edits: seq<Edit>, last: nat, n: nat, k: nat)
    requires Ordered(edits, last, n) && k <= |edits|
    ensures Ordered(edits[..k], last, n)
    ensures k < |edits| ==> Ordered(edits[..k], last, edits[k].s) && edits[..k + 1] == edits[..k] + [edits[k]]
    decreases |edits| - k
  {
    if k == |edits| {
      assert edits[..k] == edits;
    } else {
      OrderedPrefix(edits, last, n, k + 1);
      assert edits[..k + 1] == edits[..k] + [edits[k]];
      OrderedSnoc(edits[..k], edits[k], last, n);
      OrderedWiden(edits[..k], last, edits[k].s, n);
    }
  }

  lemma SpliceHead(text: string, last: nat, x: Edit, after: seq<Edit>)
    requires last <= x.s <= x.e <= |text| && Ordered(after, x.e, |text|)
    ensures Ordered([x] + after, last, |text|)
    ensures Splice(text, last, [x] + after) == text[last..x.s] + x.repl + Splice(text, x.e, after)
  {
    assert ([x] + after)[1..] == after;
  }

  /** The fixer's splice: pieces appended left to right behind a `last` cursor. */
  method SpliceForward(text: string, edits: seq<Edit>) returns (r: string)
    requires Ordered(edits, 0, |text|)
    ensures r == Splice(text, 0, edits)
  {
    r := [];
    var last: nat := 0;
    for i := 0 to |edits|
      invariant Ordered(edits[i..], last, |text|)
      invariant r + Splice(text, last, edits[i..]) == Splice(text, 0, edits)
    {
      var x := edits[i];
      assert edits[i..] == [x] + edits[i + 1..] && edits[i..][1..] == edits[i + 1..];
      SpliceHead(text, last, x, edits[i + 1..]);
      Assoc(r, text[last..x.s], x.repl);
      Assoc(r, text[last..x.s] + x.repl, Splice(text, x.e, edits[i + 1..]));
      r := r + text[last..x.s];
      r := r + x.repl;
      last := x.e;
    }
    r := r + text[last..];
  }

  // ------------------------------------------------------------ the version fixer

  datatype Change = Change(line: nat, was: string)

  /** The spans a regex search found: in order, without overlap, each `(start, end)`. */
  ghost predicate Spans(spans: seq<(nat, nat)>, n: nat) {
    && (forall i :: 0 <= i < |spans| ==> spans[i].0 <= spans[i].1 <= n)
    && (forall i, j :: 0 <= i < j < |spans| ==> spans[i].1 <= spans[j].0)
  }

  ghost predicate InBounds(spans: seq<(nat, nat)>, n: nat) {
    forall i :: 0 <= i < |spans| ==> spans[i].0 <= spans[i].1 <= n
  }

  /** The edits the fix stands for: one per span that does not read `target` yet. */
  function Fixes(text: string, spans: seq<(nat, nat)>, target: string): seq<Edit>
    requires InBounds(spans, |text|)
  {
    if spans == [] then [] else FixAt(text, spans[0], target) + Fixes(text, spans[1..], target)
  }

  function FixAt(text: string, x: (nat, nat), target: string): seq<Edit>
    requires x.0 <= x.1 <= |text|
  {
    if text[x.0..x.1] == target then [] else [Edit(x.0, x.1, target)]
  }

  /** Every span replaced, whether it already reads `target` or not. */
  function ReplaceAll(spans: seq<(nat, nat)>, target: string): seq<Edit> {
    if spans == [] then [] else [Edit(spans[0].0, spans[0].1, target)] + ReplaceAll(spans[1..], target)
  }

  /** One report line per edit, at the line its span starts on in the original. */
  function Report(text: string, edits: seq<Edit>): seq<Change>
    requires Bounded(edits, |text|)
  {
    if edits == [] then [] else [LineOf(text, edits[0])] + Report(text, edits[1..])
  }

  function LineOf(text: string, x: Edit): Change
    requires x.s <= x.e <= |text|
  {
    Change(Count(text[..x.s], '\n') + 1, text[x.s..x.e])
  }

  ghost predicate Bounded(edits: seq<Edit>, n: nat) {
    forall i :: 0 <= i < |edits| ==> edits[i].s <= edits[i].e <= n
  }

  lemma SpansTail(spans: seq<(nat, nat)>, n: nat)
    requires Spans(spans, n) && spans != []
    ensures Spans(spans[1..], n) && (|spans| > 1 ==> spans[0].1 <= spans[1].0)
  {
  }

  lemma {:induction false} FixesOrdered(text: string, spans: seq<(nat, nat)>, target: string, last: nat)
    requires Spans(spans, |text|) && last <= |text| && (spans != [] ==> last <= spans[0].0)
    ensures Ordered(Fixes(text, spans, target), last, |text|) && Bounded(Fixes(text, spans, target), |text|)
    decreases spans
  {
    if spans != [] {
      var (s, e) := spans[0];
      SpansTail(spans, |text|);
      FixesOrdered(text, spans[1..], target, e);
      var rest := Fixes(text, spans[1..], target);
      if text[s..e] == target {
        assert Fixes(text, spans, target) == rest;
        SpliceEarlier(text, last, e, rest);
      } else {
        OrderedCons(Edit(s, e, target), rest, last, |text|);
      }
    }
  }

  lemma {:induction false} AllOrdered(spans: seq<(nat, nat)>, target: string, last: nat, n: nat)
    requires Spans(spans, n) && last <= n && (spans != [] ==> last <= spans[0].0)
    ensures Ordered(ReplaceAll(spans, target), last, n)
    decreases spans
  {
    if spans != [] {
      SpansTail(spans, n);
      AllOrdered(spans[1..], target, spans[0].1, n);
      assert ReplaceAll(spans, target)[1..] == ReplaceAll(spans[1..], target);
    }
  }

  /** An edit that writes what is there already is no edit. */
  lemma IdleEdit(text: string, last: nat, x: Edit, rest: seq<Edit>)
    requires last <= x.s <= x.e <= |text| && text[x.s..x.e] == x.repl && Ordered(rest, x.e, |text|)
    ensures Ordered([x] + rest, last, |text|) && Ordered(rest, last, |text|)
    ensures Splice(text, last, [x] + rest) == Splice(text, last, rest)
  {
    assert ([x] + rest)[1..] == rest;
    SpliceEarlier(text, last, x.e, rest);
    assert text[last..x.e] == text[last..x.s] + x.repl;
  }

  lemma SameHead(text: string, last: nat, x: Edit, a: seq<Edit>, b: seq<Edit>)
    requires last <= x.s <= x.e <= |text| && Ordered(a, x.e, |text|) && Ordered(b, x.e, |text|)
    requires Splice(text, x.e, a) == Splice(text, x.e, b)
    ensures Ordered([x] + a, last, |text|) && Ordered([x] + b, last, |text|)
    ensures Splice(text, last, [x] + a) == Splice(text, last, [x] + b)
  {
    assert ([x] + a)[1..] == a && ([x] + b)[1..] == b;
  }

  /** Fixing only the spans that differ is replacing every span. */
  lemma {:induction false} FixesMeanReplaceAll(text: string, spans: seq<(nat, nat)>, target: string, last: nat)
    requires Spans(spans, |text|) && last <= |text| && (spans != [] ==> last <= spans[0].0)
    ensures Ordered(Fixes(text, spans, target), last, |text|) && Ordered(ReplaceAll(spans, target), last, |text|)
    ensures Splice(text, last, Fixes(text, spans, target)) == Splice(text, last, ReplaceAll(spans, target))
    decreases spans
  {
    FixesOrdered(text, spans, target, last);
    AllOrdered(spans, target, last, |text|);
    if spans != [] {
      var (s, e) := spans[0];
      SpansTail(spans, |text|);
      FixesMeanReplaceAll(text, spans[1..], target, e);
      var rest, all := Fixes(text, spans[1..], target), ReplaceAll(spans[1..], target);
      AllOrdered(spans[1..], target, e, |text|);
      var x := Edit(s, e, target);
      SameHead(text, last, x, rest, all);
      if text[s..e] == target {
        assert Fixes(text, spans, target) == rest;
        IdleEdit(text, last, x, rest);
      }
    }
  }

  lemma SpliceEarlier(text: string, last: nat, later: nat, edits: seq<Edit>)
    requires last <= later && Ordered(edits, later, |text|)
    ensures Ordered(edits, last, |text|)
    ensures Splice(text, last, edits) == text[last..later] + Splice(text, later, edits)
  {
    OrderedEnds(edits, later, |text|);
    if edits == [] {
      Halves(text, last, later, |text|);
      assert text[last..] == text[last..|text|] && text[later..] == text[later..|text|];
    } else {
      var x := edits[0];
      var tail := Splice(text, x.e, edits[1..]);
      Halves(text, last, later, x.s);
      Assoc(text[last..later], text[later..x.s], x.repl + tail);
      Assoc(text[later..x.s], x.repl, tail);
      Assoc(text[last..x.s], x.repl, tail);
    }
  }

  lemma {:induction false} FixesSnoc(text: string, spans: seq<(nat, nat)>, x: (nat, nat), target: string)
    requires InBounds(spans, |text|)
    requires x.0 <= x.1 <= |text|
    ensures InBounds(spans + [x], |text|)
    ensures Fixes(text, spans + [x], target) == Fixes(text, spans, target) + FixAt(text, x, target)
    decreases spans
  {
    if spans == [] {
      assert spans + [x] == [x] && [x][1..] == [];
    } else {
      var rest := spans[1..];
      assert (spans + [x])[0] == spans[0] && (spans + [x])[1..] == rest + [x];
      FixesSnoc(text, rest, x, target);
      Assoc(FixAt(text, spans[0], target), Fixes(text, rest, target), FixAt(text, x, target));
    }
  }

  lemma {:induction false} ReportSnoc(text: string, edits: seq<Edit>, x: Edit)
    requires Bounded(edits, |text|)
    requires x.s <= x.e <= |text|
    ensures Bounded(edits + [x], |text|)
    ensures Report(text, edits + [x]) == Report(text, edits) + [LineOf(text, x)]
    decreases edits
  {
    if edits == [] {
      assert edits + [x] == [x] && [x][1..] == [];
    } else {
      var rest := edits[1..];
      assert (edits + [x])[0] == edits[0] && (edits + [x])[1..] == rest + [x];
      ReportSnoc(text, rest, x);
      Assoc([LineOf(text, edits[0])], Report(text, rest), [LineOf(text, x)]);
    }
  }

  function Reversed<T>(xs: seq<T>): seq<T> {
    if xs == [] then [] else Reversed(xs[1..]) + [xs[0]]
  }

  lemma {:induction false} ReversedSnoc<T>(xs: seq<T>, x: T)
    ensures Reversed(xs + [x]) == [x] + Reversed(xs)
  {
    if xs == [] {
      assert xs + [x] == [x] && [x][1..] == [];
    } else {
      assert (xs + [x])[0] == xs[0] && (xs + [x])[1..] == xs[1..] + [x];
      ReversedSnoc(xs[1..], x);
    }
  }

  datatype FixResult = NotFound | Fixed(text: string, report: seq<Change>)

  /** Between two steps of the fixer: the text still agrees with the original up to
      `upto`, and what is left to do and what is done add up to the whole fix. */
  ghost predicate Stage(text: string, newText: string, left: seq<Edit>, upto: nat, report: seq<Change>, all: seq<Edit>)
    requires Ordered(all, 0, |text|) && Bounded(all, |text|)
  {
    && upto <= |text| && upto <= |newText| && newText[..upto] == text[..upto]
    && Ordered(left, 0, |newText|) && Bounded(left, |text|)
    && Splice(newText, 0, left) == Splice(text, 0, all)
    && Report(text, left) + Reversed(report) == Report(text, all)
  }

  lemma StageEdit(text: string, newText: string, left: seq<Edit>, x: Edit, report: seq<Change>, all: seq<Edit>)
    requires Ordered(all, 0, |text|) && Bounded(all, |text|)
    requires Stage(text, newText, left + [x], x.e, report, all) && x.s <= x.e
    ensures newText[..x.s] == text[..x.s]
    ensures Stage(text, EditOne(newText, x), left, x.s, report + [LineOf(text, x)], all)
  {
    SpliceLast(newText, 0, left, x);
    assert newText[..x.s] == newText[..x.e][..x.s] == text[..x.e][..x.s] == text[..x.s];
    assert EditOne(newText, x)[..x.s] == newText[..x.s];
    BoundedFront(left, x, |text|);
    ReportStage(text, left, x, report);
  }

  lemma BoundedFront(left: seq<Edit>, x: Edit, n: nat)
    requires Bounded(left + [x], n)
    ensures Bounded(left, n) && x.s <= x.e <= n
  {
    var edits := left + [x];
    assert edits[|left|] == x;
    assert forall i :: 0 <= i < |left| ==> left[i] == edits[i];
  }

  lemma ReportStage(text: string, left: seq<Edit>, x: Edit, report: seq<Change>)
    requires Bounded(left, |text|) && Bounded(left + [x], |text|) && x.s <= x.e <= |text|
    ensures Report(text, left + [x]) + Reversed(report)
         == Report(text, left) + Reversed(report + [LineOf(text, x)])
  {
    var c := LineOf(text, x);
    ReportSnoc(text, left, x);
    ReversedSnoc(report, c);
    Assoc(Report(text, left), [c], Reversed(report));
  }

  lemma StageShrink(text: string, newText: string, left: seq<Edit>, upto: nat, less: nat, report: seq<Change>, all: seq<Edit>)
    requires Ordered(all, 0, |text|) && Bounded(all, |text|)
    requires Stage(text, newText, left, upto, report, all) && less <= upto
    ensures Stage(text, newText, left, less, report, all)
  {
    assert newText[..less] == newText[..upto][..less] && text[..less] == text[..upto][..less];
  }

  /** The version fixer: matches walked back to front, the text edited in place, each
      line counted in the text as edited so far. It refines the simultaneous splice. */
  method ApplyVersionFix(text: string, spans: seq<(nat, nat)>, target: string) returns (r: FixResult)
    requires Spans(spans, |text|)
    ensures r.NotFound? <==> spans == []
    ensures spans != [] ==>
              var fixes := Fixes(text, spans, target);
              && Ordered(fixes, 0, |text|) && Bounded(fixes, |text|)
              && r.text == Splice(text, 0, fixes)
              && r.report == Report(text, fixes)
  {
    if spans == [] { return NotFound; }
    FixesOrdered(text, spans, target, 0);
    ghost var fixes := Fixes(text, spans, target);
    var newText, report: seq<Change> := text, [];
    var i := |spans|;
    ghost var upto: nat := |text|;
    assert spans[..i] == spans && Report(text, fixes) + [] == Report(text, fixes);
    while i > 0
      invariant 0 <= i <= |spans|
      invariant Going(text, newText, spans[..i], target, upto, report, fixes)
    {
      i := i - 1;
      var x := spans[i];
      SpansStep(spans, |text|, i);
      GoingStep(text, newText, spans[..i + 1], spans[..i], x, target, upto, report, fixes);
      if text[x.0..x.1] == target {
        upto := x.1;
      } else {
        report := report + [Change(Count(newText[..x.0], '\n') + 1, text[x.0..x.1])];
        newText := EditOne(newText, Edit(x.0, x.1, target));
        upto := x.0;
      }
    }
    assert spans[..0] == [];
    r := Fixed(newText, Reversed(report));
  }

  /** The loop's state with the spans `front` still to visit. */
  ghost predicate Going(text: string, newText: string, front: seq<(nat, nat)>, target: string, upto: nat, report: seq<Change>, all: seq<Edit>)
  {
    && Ordered(all, 0, |text|) && Bounded(all, |text|)
    && InBounds(front, |text|) && (front != [] ==> front[|front| - 1].1 <= upto)
    && Stage(text, newText, Fixes(text, front, target), upto, report, all)
  }

  lemma GoingStep(text: string, newText: string, left: seq<(nat, nat)>, front: seq<(nat, nat)>, x: (nat, nat), target: string, upto: nat, report: seq<Change>, all: seq<Edit>)
    requires left == front + [x] && Going(text, newText, left, target, upto, report, all)
    requires x.0 <= x.1 && InBounds(front, |text|) && (front != [] ==> front[|front| - 1].1 <= x.0)
    ensures x.1 <= upto <= |text| && upto <= |newText|
    ensures text[x.0..x.1] == target ==> Going(text, newText, front, target, x.1, report, all)
    ensures text[x.0..x.1] != target ==>
              Going(text, EditOne(newText, Edit(x.0, x.1, target)), front, target, x.0,
                    report + [Change(Count(newText[..x.0], '\n') + 1, text[x.0..x.1])], all)
  {
    assert left[|left| - 1] == x;
    if text[x.0..x.1] == target {
      IdleStep(text, newText, front, x, target, upto, report, all);
    } else {
      GoingEdit(text, newText, front, x, target, upto, report, all);
    }
  }

  lemma GoingEdit(text: string, newText: string, front: seq<(nat, nat)>, x: (nat, nat), target: string, upto: nat, report: seq<Change>, all: seq<Edit>)
    requires Going(text, newText, front + [x], target, upto, report, all) && x.1 <= upto
    requires x.0 <= x.1 && InBounds(front, |text|) && (front != [] ==> front[|front| - 1].1 <= x.0) && text[x.0..x.1] != target
    ensures Going(text, EditOne(newText, Edit(x.0, x.1, target)), front, target, x.0,
                  report + [Change(Count(newText[..x.0], '\n') + 1, text[x.0..x.1])], all)
  {
    PrefixAgrees(text, newText, x.0, upto);
    EditStep(text, newText, front, x, target, upto, report, all);
  }

  lemma SpansStep(spans: seq<(nat, nat)>, n: nat, i: nat)
    requires Spans(spans, n) && i < |spans|
    ensures spans[..i + 1] == spans[..i] + [spans[i]]
    ensures InBounds(spans[..i], n) && spans[i].0 <= spans[i].1 <= n
    ensures i > 0 ==> spans[..i][i - 1].1 <= spans[i].0
  {
  }

  lemma PrefixAgrees(text: string, newText: string, s: nat, upto: nat)
    requires s <= upto <= |text| && upto <= |newText| && newText[..upto] == text[..upto]
    ensures newText[..s] == text[..s]
  {
    assert newText[..s] == newText[..upto][..s] && text[..s] == text[..upto][..s];
  }

  /** A step of the loop at a span that already reads the target. */
  lemma IdleStep(text: string, newText: string, front: seq<(nat, nat)>, x: (nat, nat), target: string, upto: nat, report: seq<Change>, all: seq<Edit>)
    requires InBounds(front, |text|) && InBounds(front + [x], |text|) && x.0 <= x.1 <= upto <= |text| && text[x.0..x.1] == target
    requires Ordered(all, 0, |text|) && Bounded(all, |text|)
    requires Stage(text, newText, Fixes(text, front + [x], target), upto, report, all)
    ensures Stage(text, newText, Fixes(text, front, target), x.1, report, all)
  {
    var left := Fixes(text, front, target);
    FixesSnoc(text, front, x, target);
    assert left + [] == left;
    StageShrink(text, newText, left, upto, x.1, report, all);
  }

  /** And at one that does not. */
  lemma EditStep(text: string, newText: string, front: seq<(nat, nat)>, x: (nat, nat), target: string, upto: nat, report: seq<Change>, all: seq<Edit>)
    requires InBounds(front, |text|) && InBounds(front + [x], |text|) && x.0 <= x.1 <= upto <= |text| && text[x.0..x.1] != target
    requires Ordered(all, 0, |text|) && Bounded(all, |text|)
    requires Stage(text, newText, Fixes(text, front + [x], target), upto, report, all)
    ensures x.1 <= |newText|
    ensures Stage(text, EditOne(newText, Edit(x.0, x.1, target)), Fixes(text, front, target), x.0,
                  report + [LineOf(text, Edit(x.0, x.1, target))], all)
  {
    FixesSnoc(text, front, x, target);
    StageShrinkEdit(text, newText, Fixes(text, front, target), Edit(x.0, x.1, target), upto, report, all);
  }

  lemma StageShrinkEdit(text: string, newText: string, left: seq<Edit>, x: Edit, upto: nat, report: seq<Change>, all: seq<Edit>)
    requires Ordered(all, 0, |text|) && Bounded(all, |text|)
    requires Stage(text, newText, left + [x], upto, report, all) && x.s <= x.e <= upto
    ensures x.e <= |newText| && newText[..x.s] == text[..x.s]
    ensures Stage(text, EditOne(newText, x), left, x.s, report + [LineOf(text, x)], all)
  {
    StageShrink(text, newText, left + [x], upto, x.e, report, all);
    StageEdit(text, newText, left, x, report, all);
  }

  /** Where the spans stand in the fixed text, whose tail from `last` on starts at `at`. */
  function Moved(spans: seq<(nat, nat)>, target: string, last: nat, at: nat): (sites: seq<(nat, nat)>)
    requires (spans != [] ==> last <= spans[0].0) && forall i :: 0 <= i < |spans| ==> spans[i].0 <= spans[i].1
    requires forall i, j :: 0 <= i < j < |spans| ==> spans[i].1 <= spans[j].0
    ensures |sites| == |spans|
  {
    if spans == [] then []
    else
      var s := at + (spans[0].0 - last);
      [(s, s + |target|)] + Moved(spans[1..], target, spans[0].1, s + |target|)
  }

  predicate Reads(r: string, site: (nat, nat), target: string) {
    site.0 <= site.1 <= |r| && r[site.0..site.1] == target
  }

  lemma ReadsStep(text: string, done: string, target: string, last: nat, s: nat, e: nat, rest: string)
    requires last <= s <= e <= |text|
    ensures var r := done + (text[last..s] + target + rest);
            var a := |done| + (s - last);
            Reads(r, (a, a + |target|), target) && r == (done + text[last..s] + target) + rest
  {
    var a := |done| + (s - last);
    var r := done + (text[last..s] + target + rest);
    assert r == (done + text[last..s] + target) + rest;
    assert r[a..a + |target|] == target;
  }

  lemma {:induction false} SitesRead(text: string, spans: seq<(nat, nat)>, target: string, last: nat, done: string)
    requires Spans(spans, |text|) && last <= |text| && (spans != [] ==> last <= spans[0].0)
    requires Ordered(ReplaceAll(spans, target), last, |text|)
    ensures forall m :: m in Moved(spans, target, last, |done|) ==> Reads(done + Splice(text, last, ReplaceAll(spans, target)), m, target)
    decreases spans
  {
    if spans != [] {
      var (s, e) := spans[0];
      SpansTail(spans, |text|);
      var done' := done + text[last..s] + target;
      var rest := ReplaceAll(spans[1..], target);
      assert ReplaceAll(spans, target)[1..] == rest;
      SitesRead(text, spans[1..], target, e, done');
      ReadsStep(text, done, target, last, s, e, Splice(text, e, rest));
    }
  }

  lemma {:induction false} NothingLeft(r: string, sites: seq<(nat, nat)>, target: string)
    requires forall m :: m in sites ==> Reads(r, m, target)
    ensures forall i :: 0 <= i < |sites| ==> sites[i].0 <= sites[i].1 <= |r|
    ensures Fixes(r, sites, target) == []
    decreases sites
  {
    forall i | 0 <= i < |sites| ensures sites[i].0 <= sites[i].1 <= |r| { assert Reads(r, sites[i], target); }
    if sites != [] {
      assert Reads(r, sites[0], target);
      NothingLeft(r, sites[1..], target);
    }
  }

  /** A second run is a no-op: in the fixed text every site reads the target. */
  lemma FixIdempotent(text: string, spans: seq<(nat, nat)>, target: string)
    requires Spans(spans, |text|)
    ensures var fixes := Fixes(text, spans, target);
            && Ordered(fixes, 0, |text|)
            && var r := Splice(text, 0, fixes);
               var sites := Moved(spans, target, 0, 0);
               && |sites| == |spans|
               && (forall i :: 0 <= i < |sites| ==> sites[i].0 <= sites[i].1 <= |r|)
               && Fixes(r, sites, target) == []
  {
    FixesMeanReplaceAll(text, spans, target, 0);
    SitesRead(text, spans, target, 0, []);
    var r := Splice(text, 0, ReplaceAll(spans, target));
    assert [] + r == r;
    NothingLeft(r, Moved(spans, target, 0, 0), target);
  }
}
