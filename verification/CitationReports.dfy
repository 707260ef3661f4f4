/** Which error, which repair and which report each citation gets, and in what order. */
module CitationReports {
  import opened PyText
  import opened CitationText
  import opened CitationGate
  import opened CitationFacts
  import opened CitationFix
  import opened CitationAnchors
  import opened CitationVerdicts

  // --------------------------------------------------------------- the errors, by kind

  /** Two lines at least start an occurrence of the text. */
  ghost predicate SomeTwo(lines: seq<string>, needle: string) {
    exists x, y :: x != y && HitLine(Join(lines, '\n'), needle, 0, x) && HitLine(Join(lines, '\n'), needle, 0, y)
  }

  ghost predicate NoLine(lines: seq<string>, needle: string) { forall x :: !HitLine(Join(lines, '\n'), needle, 0, x) }

  /** The lines listed are those on which the text starts, in order. */
  ghost predicate ListsHits(hits: seq<nat>, lines: seq<string>, needle: string) {
    && (forall x :: x in hits <==> HitLine(Join(lines, '\n'), needle, 0, x))
    && forall i, j :: 0 <= i < j < |hits| ==> hits[i] < hits[j]
  }

  lemma HitCases(lines: seq<string>, needle: string)
    ensures var hits := Hits(Join(lines, '\n'), needle);
            && (hits == [] <==> NoLine(lines, needle))
            && (|hits| > 1 <==> SomeTwo(lines, needle))
            && (forall h: nat :: (|hits| == 1 && hits[0] == h) <==> OnlyLine(lines, needle, h))
            && ListsHits(hits, lines, needle)
  {
    var hits := Hits(Join(lines, '\n'), needle);
    HitsExact(Join(lines, '\n'), needle);
    forall h: nat ensures (|hits| == 1 && hits[0] == h) <==> OnlyLine(lines, needle, h) {
      OneHit(lines, needle, h);
      assert |hits| == 1 ==> hits == [hits[0]];
    }
    if hits != [] { assert hits[0] in hits; }
    if |hits| > 1 { assert hits[1] in hits && hits[0] < hits[1]; }
    if SomeTwo(lines, needle) {
      var x, y :| x != y && HitLine(Join(lines, '\n'), needle, 0, x) && HitLine(Join(lines, '\n'), needle, 0, y);
      assert x in hits && y in hits;
    }
  }

  /** A list without repeats is fixed by its members when it rises. */
  lemma {:induction false} RisingUnique(a: seq<nat>, b: seq<nat>)
    requires (forall i, j :: 0 <= i < j < |a| ==> a[i] < a[j]) && (forall i, j :: 0 <= i < j < |b| ==> b[i] < b[j])
    requires forall x :: x in a <==> x in b
    ensures a == b
  {
    BothEmpty(a, b);
    if a != [] {
      assert a[0] in b;
      assert b[0] in a;
      TailMembers(a);
      TailMembers(b);
      RisingUnique(a[1..], b[1..]);
      assert a == [a[0]] + a[1..] && b == [b[0]] + b[1..];
    }
  }

  lemma BothEmpty(a: seq<nat>, b: seq<nat>)
    requires forall x :: x in a <==> x in b
    ensures a == [] <==> b == []
  {
    if a != [] { assert a[0] in a; }
    if b != [] { assert b[0] in b; }
  }

  lemma TailMembers(a: seq<nat>)
    requires a != [] && forall i, j :: 0 <= i < j < |a| ==> a[i] < a[j]
    ensures forall x :: x in a[1..] <==> x in a && x != a[0]
    ensures forall i, j :: 0 <= i < j < |a[1..]| ==> a[1..][i] < a[1..][j]
  {
    assert a == [a[0]] + a[1..];
  }

  /** Why an anchored citation is refused: new and wrong, its text gone, on several lines,
      too short to trust, without room, or stale before a release. */
  lemma AnchoredKindsExact(lines: seq<string>, start: nat, end: nat, needle: string, mode: Mode)
    ensures var g, out := GradeAnchored(lines, start, end, needle, mode), !InRange(lines, start, end, needle);
            var width := Width(start, end, needle);
            && (g == NewWrong <==> out && New(mode))
            && (g == Absent <==> out && !New(mode) && NoLine(lines, needle))
            && (forall hits :: g == Ambiguous(hits) <==> out && !New(mode) && SomeTwo(lines, needle) && ListsHits(hits, lines, needle))
            && (forall h: nat :: g == TooShort(h) <==> out && !New(mode) && OnlyLine(lines, needle, h) && |needle| < 16)
            && (forall h: nat :: g == TooWide(h) <==> out && !New(mode) && OnlyLine(lines, needle, h) && |needle| >= 16 && h + width > |lines|)
            && (forall h: nat :: g == Stale(h) <==> DriftsTo(lines, start, end, needle, h) && !New(mode) && mode.strict && !mode.released)
  {
    HitCases(lines, needle);
    var found := Hits(Join(lines, '\n'), needle);
    forall hits | ListsHits(hits, lines, needle) ensures hits == found { RisingUnique(hits, found); }
  }

  /** Neither an anchor nor an opening that is doubled stands behind the citation. */
  ghost predicate Plain(pieces: seq<string>, k: nat)
    requires IsCite(pieces, k)
  {
    !OpensTwice(Behind(pieces, k)) && !exists t :: Anchors(Behind(pieces, k), t)
  }

  ghost predicate Fits(ctx: Context, pieces: seq<string>, k: nat)
    requires IsCite(pieces, k) && Body(pieces[k]).value.path in ctx.files
  {
    End(Body(pieces[k]).value) <= |FileLines(ctx.files[Body(pieces[k]).value.path])|
  }

  /** Why a citation without an anchor is refused: no file, a doubled opening, past the end
      of its file, a failed anchor, or new; in that order. */
  lemma PlainKindsExact(ctx: Context, pieces: seq<string>, k: nat, mode: Mode)
    requires IsCite(pieces, k) && Free(pieces, TICK)
    ensures var g, path := GradeOf(ctx, pieces, k, mode), Body(pieces[k]).value.path;
            var failed := FailedAnchor(pieces[k - 1], Behind(pieces, k));
            && (g == NoFile <==> !Elsewhere(ctx, path) && path !in ctx.files)
            && (g == Malformed <==> Local(ctx, path) && OpensTwice(Behind(pieces, k)))
            && (g == PastEnd <==> Local(ctx, path) && Plain(pieces, k) && !Fits(ctx, pieces, k))
            && (g == NearMissed <==> Local(ctx, path) && Plain(pieces, k) && Fits(ctx, pieces, k) && failed)
            && (g == NewUnanchored <==> Local(ctx, path) && Plain(pieces, k) && Fits(ctx, pieces, k) && !failed && New(mode))
  {
    PathsExact(ctx, Body(pieces[k]).value.path);
    PlainIs(pieces, k);
    GradeCases(ctx, pieces, k, mode);
    MissExact(pieces, k);
  }

  lemma PlainIs(pieces: seq<string>, k: nat)
    requires IsCite(pieces, k) && Free(pieces, TICK)
    ensures AnchorAt(pieces, k).BadOpening? <==> OpensTwice(Behind(pieces, k))
    ensures AnchorAt(pieces, k).NoOpening? || AnchorAt(pieces, k).Unparsed? <==> Plain(pieces, k)
    ensures AnchorAt(pieces, k).Anchor? <==> exists t :: Anchors(Behind(pieces, k), t)
  {
    AnchorOfText(pieces, k);
    ReadingExact(Behind(pieces, k));
  }

  lemma GradeCases(ctx: Context, pieces: seq<string>, k: nat, mode: Mode)
    requires IsCite(pieces, k)
    ensures var g, path, a := GradeOf(ctx, pieces, k, mode), Body(pieces[k]).value.path, AnchorAt(pieces, k);
            var local, plain := !ForeignPath(path) && path in ctx.files, a.NoOpening? || a.Unparsed?;
            && (g == NoFile <==> !ForeignPath(path) && !Folded(ctx, path) && path !in ctx.files)
            && (g == Malformed <==> local && a.BadOpening?)
            && (g == PastEnd <==> local && plain && !Fits(ctx, pieces, k))
            && (g == NearMissed <==> local && plain && Fits(ctx, pieces, k) && NearMiss(pieces, k))
            && (g == NewUnanchored <==> local && plain && Fits(ctx, pieces, k) && !NearMiss(pieces, k) && New(mode))
  {
    var c := Body(pieces[k]).value;
    if c.path in ctx.files && AnchorAt(pieces, k).Anchor? {
      AnchoredKinds(FileLines(ctx.files[c.path]), Start(c), End(c), Strip(AnchorAt(pieces, k).text), mode);
    }
  }

  /** An anchored citation of a local file gets the verdict on its text. */
  lemma AnchoredGradeExact(ctx: Context, pieces: seq<string>, k: nat, mode: Mode, t: string)
    requires IsCite(pieces, k) && Free(pieces, TICK) && Anchors(Behind(pieces, k), t)
    requires Local(ctx, Body(pieces[k]).value.path)
    ensures var c := Body(pieces[k]).value;
            GradeOf(ctx, pieces, k, mode) == GradeAnchored(FileLines(ctx.files[c.path]), Start(c), End(c), Strip(t), mode)
  {
    PathsExact(ctx, Body(pieces[k]).value.path);
    AnchorOfText(pieces, k);
    ReadingExact(Behind(pieces, k));
  }

  // -------------------------------------------------------------- the repairs, by kind

  /** What the fixer marks, and what it leaves to a human, of an anchored citation. */
  lemma AnchoredRepairExact(lines: seq<string>, start: nat, end: nat, needle: string)
    ensures var r, out := RepairAnchored(lines, start, end, needle), !InRange(lines, start, end, needle);
            && (r == Kept <==> !out)
            && (r == NeedsHuman <==> out && forall h: nat :: NearestLine(lines, start, needle, h) ==> h + Width(start, end, needle) > |lines|)
            && (r.Rewrite? || r == Kept || r == NeedsHuman)
            && (r.Rewrite? ==> (r.mark.AmbiguousMark? <==> SomeTwo(lines, needle))
                               && (r.mark.AmbiguousMark? ==> ListsHits(r.mark.hits, lines, needle))
                               && (r.mark == VerifyMark <==> !SomeTwo(lines, needle) && |needle| < 16))
  {
    HitCases(lines, needle);
    var hits := Hits(Join(lines, '\n'), needle);
    if hits == [] {
      assert forall h :: !NearestLine(lines, start, needle, h);
    } else {
      OneNearest(lines, start, needle, Nearest(hits, start));
      assert NearestLine(lines, start, needle, Nearest(hits, start));
    }
  }

  lemma OneNearest(lines: seq<string>, start: nat, needle: string, n: nat)
    requires Hits(Join(lines, '\n'), needle) != [] && n == Nearest(Hits(Join(lines, '\n'), needle), start)
    ensures forall h: nat :: NearestLine(lines, start, needle, h) <==> h == n
  {
    forall h: nat ensures NearestLine(lines, start, needle, h) <==> h == n { NearestExact(lines, start, needle, h); }
  }

  /** And of the others: foreign and folded ones are left, those without an anchor are
      counted unless the anchor failed, and the rest need a human. */
  lemma PlainRepairExact(ctx: Context, pieces: seq<string>, k: nat)
    requires IsCite(pieces, k) && Free(pieces, TICK)
    ensures var r, path, rest := RepairOf(ctx, pieces, k), Body(pieces[k]).value.path, Behind(pieces, k);
            && (r.LeftForeign? || r.LeftFolded? <==> Elsewhere(ctx, path))
            && (r == Unanchored <==> Local(ctx, path) && Plain(pieces, k) && !FailedAnchor(pieces[k - 1], rest))
            && (!(exists t :: Anchors(rest, t)) ==>
                  (r == NeedsHuman <==> !Elsewhere(ctx, path) && (path in ctx.files && Plain(pieces, k) ==> FailedAnchor(pieces[k - 1], rest))))
            && (path !in ctx.files ==> (r == NeedsHuman <==> !Elsewhere(ctx, path)))
  {
    PathsExact(ctx, Body(pieces[k]).value.path);
    PlainIs(pieces, k);
    RepairCases(ctx, pieces, k);
    MissExact(pieces, k);
  }

  lemma RepairCases(ctx: Context, pieces: seq<string>, k: nat)
    requires IsCite(pieces, k)
    ensures var r, path, a := RepairOf(ctx, pieces, k), Body(pieces[k]).value.path, AnchorAt(pieces, k);
            var local, plain := !ForeignPath(path) && path in ctx.files, a.NoOpening? || a.Unparsed?;
            && (r.LeftForeign? <==> ForeignPath(path)) && (r.LeftFolded? <==> !ForeignPath(path) && Folded(ctx, path))
            && (r == Unanchored <==> local && plain && !NearMiss(pieces, k))
            && (!a.Anchor? || path !in ctx.files ==>
                  (r == NeedsHuman <==> !ForeignPath(path) && !Folded(ctx, path)
                                        && (path !in ctx.files || a.BadOpening? || NearMiss(pieces, k))))
  {
  }

  /** An anchored citation of a local file gets the repair its text asks for. */
  lemma AnchoredRepairOf(ctx: Context, pieces: seq<string>, k: nat, t: string)
    requires IsCite(pieces, k) && Free(pieces, TICK) && Anchors(Behind(pieces, k), t)
    requires Local(ctx, Body(pieces[k]).value.path)
    ensures var c := Body(pieces[k]).value;
            RepairOf(ctx, pieces, k) == RepairAnchored(FileLines(ctx.files[c.path]), Start(c), End(c), Strip(t))
  {
    PathsExact(ctx, Body(pieces[k]).value.path);
    AnchorOfText(pieces, k);
    ReadingExact(Behind(pieces, k));
  }

  // ---------------------------------------------------------------- order and reports

  ghost predicate Rising(ks: seq<nat>) { forall i, j :: 0 <= i < j < |ks| ==> ks[i] < ks[j] }

  lemma {:induction false} ScanRises(flags: seq<bool>, from: nat)
    ensures Rising(Scan(flags, from))
    decreases |flags| - from
  {
    if from + 1 < |flags| { ScanRises(flags, if flags[from] then from + 2 else from + 1); }
  }

  ghost predicate RisingBy(xs: seq<(nat, Grade)>) { forall i, j :: 0 <= i < j < |xs| ==> xs[i].0 < xs[j].0 }

  ghost predicate Below(xs: seq<(nat, Grade)>, ks: seq<nat>) { forall x, k :: x in xs && k in ks ==> x.0 < k }

  ghost predicate InOrder(f: Findings) { RisingBy(f.errors) && RisingBy(f.skips) && RisingBy(f.notes) }

  ghost predicate AllBelow(f: Findings, ks: seq<nat>) { Below(f.errors, ks) && Below(f.skips, ks) && Below(f.notes, ks) }

  lemma {:induction false} CheckInOrder(ctx: Context, text: string, pieces: seq<string>, ks: seq<nat>, added: Option<set<nat>>,
                                        strict: bool, released: bool, f: Findings)
    requires AllCites(pieces, ks) && Rising(ks) && InOrder(f) && AllBelow(f, ks)
    ensures InOrder(Check(ctx, text, pieces, ks, added, strict, released, f))
    decreases ks
  {
    if ks != [] {
      assert IsCite(pieces, ks[0]);
      var v := Verdict(ctx, text, pieces, ks[0], added, strict, released);
      RecordInOrder(f, ks, v);
      CheckInOrder(ctx, text, pieces, ks[1..], added, strict, released, Record(f, ks[0], v));
    }
  }

  lemma RecordInOrder(f: Findings, ks: seq<nat>, v: Grade)
    requires ks != [] && Rising(ks) && InOrder(f) && AllBelow(f, ks)
    ensures Rising(ks[1..]) && InOrder(Record(f, ks[0], v)) && AllBelow(Record(f, ks[0], v), ks[1..])
  {
    assert ks[0] in ks && forall k :: k in ks[1..] ==> k in ks && ks[0] < k;
    OneMore(f.errors, ks, v);
    OneMore(f.skips, ks, v);
    OneMore(f.notes, ks, v);
  }

  lemma OneMore(xs: seq<(nat, Grade)>, ks: seq<nat>, v: Grade)
    requires ks != [] && Rising(ks) && RisingBy(xs) && Below(xs, ks)
    ensures RisingBy(xs + [(ks[0], v)]) && Below(xs + [(ks[0], v)], ks[1..]) && Below(xs, ks[1..])
  {
    assert ks[0] in ks && forall k :: k in ks[1..] ==> k in ks && ks[0] < k;
    forall i | 0 <= i < |xs| ensures xs[i].0 < ks[0] { assert xs[i] in xs; }
  }

  /** Errors, skips and notes are each listed in the order of the citations. */
  lemma FindingsInOrder(ctx: Context, text: string, added: Option<set<nat>>, strict: bool, released: bool)
    ensures InOrder(FindingsOf(ctx, text, added, strict, released))
  {
    ScanRises(Flags(Pieces(text)), 1);
    CheckInOrder(ctx, StripFenced(text), Pieces(text), Citations(Pieces(text)), added, strict, released, NO_FINDINGS);
  }

  /** The fixer's reports list exactly the citations it rewrites, each with its repair, and
      exactly those it leaves to a human. */
  lemma {:induction false} ReportsHold(ctx: Context, pieces: seq<string>, ks: seq<nat>, k: nat, r: Repair)
    requires AllCites(pieces, ks) && Rising(ks)
    ensures (k, r) in RewritesOf(ctx, pieces, ks) <==> k in ks && IsCite(pieces, k) && r == RepairOf(ctx, pieces, k) && r.Rewrite?
    ensures k in ProblemsOf(ctx, pieces, ks) <==> k in ks && IsCite(pieces, k) && RepairOf(ctx, pieces, k).NeedsHuman?
    decreases ks
  {
    if ks != [] {
      assert IsCite(pieces, ks[0]);
      assert ks == [ks[0]] + ks[1..];
      ReportsHold(ctx, pieces, ks[1..], k, r);
    }
  }

  lemma {:induction false} ReportsRise(ctx: Context, pieces: seq<string>, ks: seq<nat>)
    requires AllCites(pieces, ks) && Rising(ks)
    ensures RewritesRise(RewritesOf(ctx, pieces, ks)) && Rising(ProblemsOf(ctx, pieces, ks))
    decreases ks
  {
    if ks != [] {
      assert IsCite(pieces, ks[0]);
      ReportsRise(ctx, pieces, ks[1..]);
      RewritesAbove(ctx, pieces, ks);
      ProblemsAbove(ctx, pieces, ks);
      var r := RepairOf(ctx, pieces, ks[0]);
      FirstRise([(ks[0], r)], RewritesOf(ctx, pieces, ks[1..]));
      FirstProblem(ks[0], ProblemsOf(ctx, pieces, ks[1..]));
      assert [] + RewritesOf(ctx, pieces, ks[1..]) == RewritesOf(ctx, pieces, ks[1..]);
      assert [] + ProblemsOf(ctx, pieces, ks[1..]) == ProblemsOf(ctx, pieces, ks[1..]);
    }
  }

  lemma FirstRise(a: seq<(nat, Repair)>, b: seq<(nat, Repair)>)
    requires |a| == 1 && RewritesRise(b) && forall x :: x in b ==> a[0].0 < x.0
    ensures RewritesRise(a + b)
  {
  }

  lemma FirstProblem(k: nat, b: seq<nat>)
    requires Rising(b) && forall x :: x in b ==> k < x
    ensures Rising([k] + b)
  {
    assert forall i :: 0 <= i < |b| ==> b[i] in b;
  }

  lemma RewritesAbove(ctx: Context, pieces: seq<string>, ks: seq<nat>)
    requires ks != [] && AllCites(pieces, ks) && Rising(ks) && AllCites(pieces, ks[1..])
    ensures forall x :: x in RewritesOf(ctx, pieces, ks[1..]) ==> ks[0] < x.0
  {
    forall x | x in RewritesOf(ctx, pieces, ks[1..]) ensures ks[0] < x.0 {
      ReportsHold(ctx, pieces, ks[1..], x.0, x.1);
      assert x == (x.0, x.1);
      Above(ks, x.0);
    }
  }

  lemma ProblemsAbove(ctx: Context, pieces: seq<string>, ks: seq<nat>)
    requires ks != [] && AllCites(pieces, ks) && Rising(ks) && AllCites(pieces, ks[1..])
    ensures forall k :: k in ProblemsOf(ctx, pieces, ks[1..]) ==> ks[0] < k
  {
    forall k | k in ProblemsOf(ctx, pieces, ks[1..]) ensures ks[0] < k {
      ReportsHold(ctx, pieces, ks[1..], k, Kept);
      Above(ks, k);
    }
  }

  ghost predicate RewritesRise(rw: seq<(nat, Repair)>) { forall i, j :: 0 <= i < j < |rw| ==> rw[i].0 < rw[j].0 }

  lemma Above(ks: seq<nat>, k: nat)
    requires ks != [] && Rising(ks) && k in ks[1..]
    ensures ks[0] < k
  {
  }

  lemma ReportsExact(ctx: Context, text: string, k: nat, r: Repair)
    ensures var pieces := Pieces(text);
            var ks := Citations(pieces);
            && ((k, r) in RewritesOf(ctx, pieces, ks) <==> k in ks && IsCite(pieces, k) && r == RepairOf(ctx, pieces, k) && r.Rewrite?)
            && (k in ProblemsOf(ctx, pieces, ks) <==> k in ks && IsCite(pieces, k) && RepairOf(ctx, pieces, k).NeedsHuman?)
            && Rising(ProblemsOf(ctx, pieces, ks))
            && RewritesRise(RewritesOf(ctx, pieces, ks))
  {
    ScanRises(Flags(Pieces(text)), 1);
    ReportsHold(ctx, Pieces(text), Citations(Pieces(text)), k, r);
    ReportsRise(ctx, Pieces(text), Citations(Pieces(text)));
  }
}
