/** What the gate says of a citation, in terms of the text around it and the cited file:
    the exact condition of every verdict, and that every verdict is reported. */
module CitationVerdicts {
  import opened PyText
  import opened CitationText
  import opened CitationGate
  import opened CitationFacts
  import opened CitationAnchors

  // ------------------------------------------------------------------ near misses

  predicate Blank(c: char) { c == ' ' || c == '\t' }

  predicate Quote(c: char) { c == '"' || c == LEFT }

  predicate Paren(c: char) { c == '(' || c == ')' }

  /** A line break, blanks, and another line break. */
  ghost predicate BlankLine(s: string, j: nat) {
    exists m :: j < m < |s| && s[j] == '\n' && s[m] == '\n' && forall i :: j < i < m ==> Blank(s[i])
  }

  /** A double quote comes before any parenthesis and any blank line. */
  ghost predicate QuoteFirst(s: string) {
    exists i :: 0 <= i < |s| && Quote(s[i]) && forall j :: 0 <= j < i ==> !Paren(s[j]) && !BlankLine(s, j)
  }

  /** A parenthesis opens within 40 characters before the citation, with only blanks between. */
  ghost predicate ParenJust(before: string) {
    exists p :: 0 <= p < |before| && before[p] == '(' && |before| - p <= 40 && forall q :: p < q < |before| ==> Blank(before[q])
  }

  lemma {:induction false} BlanksSkipped(s: string, i: nat)
    requires i <= |s|
    ensures (forall k :: i <= k < SkipBlank(s, i) ==> Blank(s[k])) && (SkipBlank(s, i) < |s| ==> !Blank(s[SkipBlank(s, i)]))
    decreases |s| - i
  {
    if i < |s| && Blank(s[i]) { BlanksSkipped(s, i + 1); }
  }

  lemma BlankLineFirst(s: string)
    requires s != []
    ensures s[0] == '\n' && (var j := SkipBlank(s, 1); j < |s| && s[j] == '\n') <==> BlankLine(s, 0)
  {
    BlanksSkipped(s, 1);
    forall m | 0 < m < |s| && s[0] == '\n' && s[m] == '\n' && forall i :: 0 < i < m ==> Blank(s[i]) ensures SkipBlank(s, 1) == m {
      var j := SkipBlank(s, 1);
      assert !Blank('\n');
    }
  }

  lemma BlankLineTail(s: string, j: nat)
    requires s != []
    ensures BlankLine(s[1..], j) <==> BlankLine(s, j + 1)
  {
    var t := s[1..];
    forall m | j < m < |t| && t[j] == '\n' && t[m] == '\n' && forall i :: j < i < m ==> Blank(t[i]) ensures BlankLine(s, j + 1) {
      assert s[j + 1] == '\n' && s[m + 1] == '\n';
      forall i | j + 1 < i < m + 1 ensures Blank(s[i]) { assert s[i] == t[i - 1]; }
    }
    forall m | j + 1 < m < |s| && s[j + 1] == '\n' && s[m] == '\n' && forall i :: j + 1 < i < m ==> Blank(s[i]) ensures BlankLine(t, j) {
      assert t[j] == '\n' && t[m - 1] == '\n';
      forall i | j < i < m - 1 ensures Blank(t[i]) { assert t[i] == s[i + 1]; }
    }
  }

  lemma {:induction false} QuoteExact(s: string)
    ensures QuoteInParen(s) <==> QuoteFirst(s)
  {
    if s != [] {
      BlankLineFirst(s);
      if !Quote(s[0]) && !Paren(s[0]) && !BlankLine(s, 0) {
        QuoteExact(s[1..]);
        QuoteLater(s);
      } else if Quote(s[0]) {
        assert QuoteFirst(s);
      }
    }
  }

  lemma QuoteLater(s: string)
    requires s != [] && !Quote(s[0]) && !Paren(s[0]) && !BlankLine(s, 0)
    ensures QuoteFirst(s) <==> QuoteFirst(s[1..])
  {
    var t := s[1..];
    forall j: nat ensures BlankLine(t, j) <==> BlankLine(s, j + 1) { BlankLineTail(s, j); }
    if QuoteFirst(t) {
      var i :| 0 <= i < |t| && Quote(t[i]) && forall j :: 0 <= j < i ==> !Paren(t[j]) && !BlankLine(t, j);
      assert Quote(s[i + 1]);
      forall j | 0 <= j < i + 1 ensures !Paren(s[j]) && !BlankLine(s, j) {
        if j > 0 { assert t[j - 1] == s[j] && !BlankLine(t, j - 1); }
      }
    }
    if QuoteFirst(s) {
      var i :| 0 <= i < |s| && Quote(s[i]) && forall j :: 0 <= j < i ==> !Paren(s[j]) && !BlankLine(s, j);
      assert i > 0 && Quote(t[i - 1]);
      forall j | 0 <= j < i - 1 ensures !Paren(t[j]) && !BlankLine(t, j) {
        assert t[j] == s[j + 1] && !BlankLine(s, j + 1);
      }
    }
  }

  lemma {:induction false} BlanksTrimmed(s: string)
    ensures |RTrimBlank(s)| <= |s| && RTrimBlank(s) == s[..|RTrimBlank(s)|]
    ensures forall i :: |RTrimBlank(s)| <= i < |s| ==> Blank(s[i])
    ensures RTrimBlank(s) != [] ==> !Blank(RTrimBlank(s)[|RTrimBlank(s)| - 1])
  {
    if s != [] && Blank(s[|s| - 1]) { BlanksTrimmed(s[..|s| - 1]); }
  }

  lemma ParenExact(before: string)
    ensures ParenBefore(before) <==> ParenJust(before)
  {
    var t := RTrimBlank(before);
    BlanksTrimmed(before);
    if ParenBefore(before) { assert before[|t| - 1] == '('; }
    forall p | 0 <= p < |before| && before[p] == '(' && |before| - p <= 40 && forall q :: p < q < |before| ==> Blank(before[q])
      ensures ParenBefore(before)
    {
      TrimmedTo(before, t, p);
    }
  }

  lemma TrimmedTo(s: string, t: string, p: nat)
    requires t <= s && (forall i :: |t| <= i < |s| ==> Blank(s[i])) && (t != [] ==> !Blank(t[|t| - 1]))
    requires p < |s| && !Blank(s[p]) && forall q :: p < q < |s| ==> Blank(s[q])
    ensures |t| == p + 1
  {
    if t != [] { assert !Blank(s[|t| - 1]); }
  }

  // --------------------------------------------------------- one citation's verdict

  /** The text behind a citation's closing backtick. */
  function Behind(pieces: seq<string>, k: nat): string
    requires k + 1 < |pieces|
  {
    Join(pieces[k + 1..], TICK)
  }

  /** The cited file is of this repository, and there. */
  predicate Local(ctx: Context, path: string) {
    && !("python/" <= path) && !("crates/" <= path) && !("contract/" <= path)
    && path in ctx.files
  }

  /** The citation belongs elsewhere: to another repository, or, in CHANGELOG.md, to a
      fragment that has been folded in. */
  predicate Elsewhere(ctx: Context, path: string) {
    || "python/" <= path || "crates/" <= path || "contract/" <= path
    || (ctx.changelog && "changelog.d/" <= path && path !in ctx.files)
  }

  lemma PathsExact(ctx: Context, path: string)
    ensures ForeignPath(path) <==> "python/" <= path || "crates/" <= path || "contract/" <= path
    ensures Folded(ctx, path) <==> ctx.changelog && "changelog.d/" <= path && path !in ctx.files
  {
  }

  /** The text behind tries to anchor and fails: it opens like an anchor, but is none, or
      the citation stands in a parenthesis that quotes something behind it. */
  ghost predicate FailedAnchor(before: string, rest: string) {
    || (Opens(rest) && !OpensTwice(rest) && !exists t :: Anchors(rest, t))
    || (QuoteFirst(rest) && ParenJust(before))
  }

  /** The four readings of the text behind. */
  lemma ReadingExact(rest: string)
    ensures ReadAnchor(rest).NoOpening? <==> !Opens(rest)
    ensures ReadAnchor(rest).BadOpening? <==> OpensTwice(rest)
    ensures ReadAnchor(rest).Anchor? <==> exists t :: Anchors(rest, t)
    ensures forall t :: Anchors(rest, t) <==> ReadAnchor(rest) == Anchor(t)
    ensures ReadAnchor(rest).Unparsed? <==> Opens(rest) && !OpensTwice(rest) && !exists t :: Anchors(rest, t)
  {
    OpeningExact(rest);
    forall t ensures Anchors(rest, t) <==> ReadAnchor(rest) == Anchor(t) { AnchorExact(rest, t); }
    if ReadAnchor(rest).Anchor? { assert Anchors(rest, ReadAnchor(rest).text); }
  }

  lemma MissExact(pieces: seq<string>, k: nat)
    requires IsCite(pieces, k) && Free(pieces, TICK)
    ensures NearMiss(pieces, k) <==> FailedAnchor(pieces[k - 1], Behind(pieces, k))
  {
    AnchorOfText(pieces, k);
    ReadingExact(Behind(pieces, k));
    QuoteExact(Behind(pieces, k));
    ParenExact(pieces[k - 1]);
  }

  /** Only one line of the file starts an occurrence of the text. */
  ghost predicate OnlyLine(lines: seq<string>, needle: string, h: nat) {
    forall x :: HitLine(Join(lines, '\n'), needle, 0, x) <==> x == h
  }

  /** The anchored citation has drifted to line `h`: the text starts there and on no other
      line, is long enough to trust, and leaves room for the range. */
  ghost predicate DriftsTo(lines: seq<string>, start: nat, end: nat, needle: string, h: nat) {
    && !InRange(lines, start, end, needle) && OnlyLine(lines, needle, h)
    && 16 <= |needle| && h + Width(start, end, needle) <= |lines|
  }

  lemma OneHit(lines: seq<string>, needle: string, h: nat)
    ensures Hits(Join(lines, '\n'), needle) == [h] <==> OnlyLine(lines, needle, h)
  {
    var hits := Hits(Join(lines, '\n'), needle);
    HitsExact(Join(lines, '\n'), needle);
    if OnlyLine(lines, needle, h) {
      assert h in hits && forall x :: x in hits ==> x == h;
      AllEqual(hits, h);
    }
  }

  /** An anchored citation passes, is noted as drifted, or is refused; and exactly when. */
  lemma AnchoredExact(lines: seq<string>, start: nat, end: nat, needle: string, mode: Mode)
    ensures var g := GradeAnchored(lines, start, end, needle, mode);
            && (IsSilentPass(g) <==> InRange(lines, start, end, needle)) && !IsSkip(g)
            && (forall h :: g == Drifted(h) <==> DriftsTo(lines, start, end, needle, h) && !New(mode) && (!mode.strict || mode.released))
            && (IsError(g) <==> !InRange(lines, start, end, needle)
                                && (New(mode) || (mode.strict && !mode.released) || !exists h :: DriftsTo(lines, start, end, needle, h)))
  {
    forall h: nat ensures Hits(Join(lines, '\n'), needle) == [h] <==> OnlyLine(lines, needle, h) { OneHit(lines, needle, h); }
  }

  // ---------------------------------------------------------------- all verdicts

  /** An unanchored citation of a local file that nothing is wrong with. */
  ghost predicate PlainOk(ctx: Context, pieces: seq<string>, k: nat, mode: Mode)
    requires IsCite(pieces, k)
  {
    var c := Body(pieces[k]).value;
    && Local(ctx, c.path) && !Opens(Behind(pieces, k)) && End(c) <= |FileLines(ctx.files[c.path])|
    && !FailedAnchor(pieces[k - 1], Behind(pieces, k)) && !(mode.isNew && mode.enforceNew)
  }

  /** An anchored citation of a local file whose range holds the text. */
  ghost predicate AnchorOk(ctx: Context, pieces: seq<string>, k: nat)
    requires IsCite(pieces, k)
  {
    var c := Body(pieces[k]).value;
    Local(ctx, c.path) && exists t :: Anchors(Behind(pieces, k), t) && InRange(FileLines(ctx.files[c.path]), Start(c), End(c), Strip(t))
  }

  /** One whose text has drifted to line `h`, in a run that only notes it. */
  ghost predicate DriftNoted(ctx: Context, pieces: seq<string>, k: nat, mode: Mode, h: nat)
    requires IsCite(pieces, k)
  {
    var c := Body(pieces[k]).value;
    && Local(ctx, c.path) && !(mode.isNew && mode.enforceNew) && (!mode.strict || mode.released)
    && exists t :: Anchors(Behind(pieces, k), t) && DriftsTo(FileLines(ctx.files[c.path]), Start(c), End(c), Strip(t), h)
  }

  /** The verdict on every citation: it passes silently if and only if its text stands in
      its range, or it has none and its range is in the file, it is no failed attempt and
      not new under enforcement; a note, a skip, and an error otherwise. */
  lemma VerdictExact(ctx: Context, pieces: seq<string>, k: nat, mode: Mode)
    requires IsCite(pieces, k) && Free(pieces, TICK)
    ensures var g := GradeOf(ctx, pieces, k, mode);
            && (IsSilentPass(g) <==> AnchorOk(ctx, pieces, k) || PlainOk(ctx, pieces, k, mode))
            && (IsSkip(g) <==> Elsewhere(ctx, Body(pieces[k]).value.path))
            && (forall h :: g == Drifted(h) <==> DriftNoted(ctx, pieces, k, mode, h))
  {
    var c := Body(pieces[k]).value;
    PathsExact(ctx, c.path);
    AnchorOfText(pieces, k);
    ReadingExact(Behind(pieces, k));
    MissExact(pieces, k);
    if Local(ctx, c.path) && AnchorAt(pieces, k).Anchor? {
      AnchoredExact(FileLines(ctx.files[c.path]), Start(c), End(c), Strip(AnchorAt(pieces, k).text), mode);
    }
  }

  // ---------------------------------------------------------------- the findings

  /** The verdict of a run on the citation in piece `k`. */
  function Verdict(ctx: Context, text: string, pieces: seq<string>, k: nat, added: Option<set<nat>>, strict: bool, released: bool): Grade
    requires IsCite(pieces, k)
  {
    GradeOf(ctx, pieces, k, ModeAt(text, pieces, k, added, strict, released))
  }

  /** A run's findings, after `ks` and on top of `f`. */
  lemma {:induction false} CheckHolds(ctx: Context, text: string, pieces: seq<string>, ks: seq<nat>, added: Option<set<nat>>,
                                      strict: bool, released: bool, f: Findings, k: nat, g: Grade)
    requires AllCites(pieces, ks)
    ensures var r := Check(ctx, text, pieces, ks, added, strict, released, f);
            var found := k in ks && IsCite(pieces, k) && g == Verdict(ctx, text, pieces, k, added, strict, released);
            && ((k, g) in r.errors <==> (k, g) in f.errors || (found && IsError(g)))
            && ((k, g) in r.skips <==> (k, g) in f.skips || (found && IsSkip(g)))
            && ((k, g) in r.notes <==> (k, g) in f.notes || (found && g.Drifted?))
    decreases ks
  {
    if ks != [] {
      assert IsCite(pieces, ks[0]);
      var v := Verdict(ctx, text, pieces, ks[0], added, strict, released);
      assert ks == [ks[0]] + ks[1..];
      CheckHolds(ctx, text, pieces, ks[1..], added, strict, released, Record(f, ks[0], v), k, g);
      RecordHolds(f, ks[0], v, k, g);
    }
  }

  lemma RecordHolds(f: Findings, k0: nat, v: Grade, k: nat, g: Grade)
    ensures var r := Record(f, k0, v);
            && ((k, g) in r.errors <==> (k, g) in f.errors || (k == k0 && g == v && IsError(g)))
            && ((k, g) in r.skips <==> (k, g) in f.skips || (k == k0 && g == v && IsSkip(g)))
            && ((k, g) in r.notes <==> (k, g) in f.notes || (k == k0 && g == v && g.Drifted?))
  {
  }

  /** How many citations are of local files, and how many of those are anchored. */
  ghost function Locals(ctx: Context, pieces: seq<string>, ks: seq<nat>): nat
    requires AllCites(pieces, ks)
  {
    if ks == [] then 0
    else
      assert IsCite(pieces, ks[0]);
      (if Local(ctx, Body(pieces[ks[0]]).value.path) then 1 else 0) + Locals(ctx, pieces, ks[1..])
  }

  ghost function AnchoredLocals(ctx: Context, pieces: seq<string>, ks: seq<nat>): nat
    requires AllCites(pieces, ks)
  {
    if ks == [] then 0
    else
      assert IsCite(pieces, ks[0]);
      (if Local(ctx, Body(pieces[ks[0]]).value.path) && (exists t :: Anchors(Behind(pieces, ks[0]), t)) then 1 else 0)
      + AnchoredLocals(ctx, pieces, ks[1..])
  }

  lemma CountsExact(ctx: Context, pieces: seq<string>, k: nat, mode: Mode)
    requires IsCite(pieces, k) && Free(pieces, TICK)
    ensures var g := GradeOf(ctx, pieces, k, mode);
            && (Checked(g) <==> Local(ctx, Body(pieces[k]).value.path))
            && (Anchored(g) <==> Local(ctx, Body(pieces[k]).value.path) && exists t :: Anchors(Behind(pieces, k), t))
  {
    PathsExact(ctx, Body(pieces[k]).value.path);
    CountsGraded(ctx, pieces, k, mode);
    AnchorOfText(pieces, k);
    ReadingExact(Behind(pieces, k));
  }

  lemma CountsGraded(ctx: Context, pieces: seq<string>, k: nat, mode: Mode)
    requires IsCite(pieces, k)
    ensures var g, c := GradeOf(ctx, pieces, k, mode), Body(pieces[k]).value;
            && (Checked(g) <==> !ForeignPath(c.path) && c.path in ctx.files)
            && (Anchored(g) <==> !ForeignPath(c.path) && c.path in ctx.files && AnchorAt(pieces, k).Anchor?)
  {
    var c := Body(pieces[k]).value;
    if !ForeignPath(c.path) && c.path in ctx.files && AnchorAt(pieces, k).Anchor? {
      AnchoredKinds(FileLines(ctx.files[c.path]), Start(c), End(c), Strip(AnchorAt(pieces, k).text), mode);
    }
  }

  lemma AnchoredKinds(lines: seq<string>, start: nat, end: nat, needle: string, mode: Mode)
    ensures Anchored(GradeAnchored(lines, start, end, needle, mode))
  {
  }

  lemma {:induction false} CheckCounts(ctx: Context, text: string, pieces: seq<string>, ks: seq<nat>, added: Option<set<nat>>,
                                       strict: bool, released: bool, f: Findings)
    requires AllCites(pieces, ks) && Free(pieces, TICK)
    ensures var r := Check(ctx, text, pieces, ks, added, strict, released, f);
            r.checked == f.checked + Locals(ctx, pieces, ks) && r.anchored == f.anchored + AnchoredLocals(ctx, pieces, ks)
    decreases ks
  {
    if ks != [] {
      assert IsCite(pieces, ks[0]);
      var v := Verdict(ctx, text, pieces, ks[0], added, strict, released);
      CountsExact(ctx, pieces, ks[0], ModeAt(text, pieces, ks[0], added, strict, released));
      CheckCounts(ctx, text, pieces, ks[1..], added, strict, released, Record(f, ks[0], v));
    }
  }

  /** Every citation that does not pass is reported once. */
  lemma {:induction false} CheckSizes(ctx: Context, text: string, pieces: seq<string>, ks: seq<nat>, added: Option<set<nat>>,
                                      strict: bool, released: bool, f: Findings)
    requires AllCites(pieces, ks)
    ensures var r := Check(ctx, text, pieces, ks, added, strict, released, f);
            |r.errors| + |r.skips| + |r.notes| + Silent(ctx, text, pieces, ks, added, strict, released)
            == |f.errors| + |f.skips| + |f.notes| + |ks|
    decreases ks
  {
    if ks != [] {
      assert IsCite(pieces, ks[0]);
      var v := Verdict(ctx, text, pieces, ks[0], added, strict, released);
      CheckSizes(ctx, text, pieces, ks[1..], added, strict, released, Record(f, ks[0], v));
    }
  }

  function Silent(ctx: Context, text: string, pieces: seq<string>, ks: seq<nat>, added: Option<set<nat>>, strict: bool, released: bool): nat
    requires AllCites(pieces, ks)
  {
    if ks == [] then 0
    else
      assert IsCite(pieces, ks[0]);
      (if IsSilentPass(Verdict(ctx, text, pieces, ks[0], added, strict, released)) then 1 else 0)
      + Silent(ctx, text, pieces, ks[1..], added, strict, released)
  }

  /** The findings of a run over a whole text. */
  function FindingsOf(ctx: Context, text: string, added: Option<set<nat>>, strict: bool, released: bool): Findings {
    Check(ctx, StripFenced(text), Pieces(text), Citations(Pieces(text)), added, strict, released, NO_FINDINGS)
  }

  lemma PiecesFree(text: string)
    ensures Free(Pieces(text), TICK)
  {
    JoinSplit(StripFenced(text), TICK);
  }

  /** What a run reports of each citation: nothing exactly when the citation passes, and
      otherwise one error, note or skip; it counts the local and the anchored ones. */
  lemma FindingsExact(ctx: Context, text: string, added: Option<set<nat>>, strict: bool, released: bool, k: nat)
    requires k in Citations(Pieces(text))
    ensures var pieces, f := Pieces(text), FindingsOf(ctx, text, added, strict, released);
            var mode := ModeAt(StripFenced(text), pieces, k, added, strict, released);
            && IsCite(pieces, k)
            && ((forall g :: (k, g) !in f.errors && (k, g) !in f.notes && (k, g) !in f.skips)
                <==> AnchorOk(ctx, pieces, k) || PlainOk(ctx, pieces, k, mode))
            && ((exists g :: (k, g) in f.skips) <==> Elsewhere(ctx, Body(pieces[k]).value.path))
            && (forall h :: (k, Drifted(h)) in f.notes <==> DriftNoted(ctx, pieces, k, mode, h))
            && f.checked == Locals(ctx, pieces, Citations(pieces)) && f.anchored == AnchoredLocals(ctx, pieces, Citations(pieces))
  {
    var pieces, f := Pieces(text), FindingsOf(ctx, text, added, strict, released);
    var mode := ModeAt(StripFenced(text), pieces, k, added, strict, released);
    PiecesFree(text);
    assert IsCite(pieces, k);
    VerdictExact(ctx, pieces, k, mode);
    CheckCounts(ctx, StripFenced(text), pieces, Citations(pieces), added, strict, released, NO_FINDINGS);
    var v := Verdict(ctx, StripFenced(text), pieces, k, added, strict, released);
    forall g
      ensures (k, g) in f.errors <==> g == v && IsError(g)
      ensures (k, g) in f.skips <==> g == v && IsSkip(g)
      ensures (k, g) in f.notes <==> g == v && g.Drifted?
    {
      CheckHolds(ctx, StripFenced(text), pieces, Citations(pieces), added, strict, released, NO_FINDINGS, k, g);
    }
    OneFinding(f, k, v);
  }

  lemma OneFinding(f: Findings, k: nat, v: Grade)
    requires forall g :: (k, g) in f.errors <==> g == v && IsError(g)
    requires forall g :: (k, g) in f.skips <==> g == v && IsSkip(g)
    requires forall g :: (k, g) in f.notes <==> g == v && g.Drifted?
    ensures (forall g :: (k, g) !in f.errors && (k, g) !in f.notes && (k, g) !in f.skips) <==> IsSilentPass(v)
    ensures (exists g :: (k, g) in f.skips) <==> IsSkip(v)
    ensures forall h :: (k, Drifted(h)) in f.notes <==> v == Drifted(h)
  {
    if IsSkip(v) { assert (k, v) in f.skips; }
    if IsError(v) { assert (k, v) in f.errors; }
    if v.Drifted? { assert (k, v) in f.notes; }
  }

  // ---------------------------------------------------------------- the rewrites

  /** The line a rewrite goes to: of those on which the text starts, the nearest to the
      cited one, the later on a tie. */
  ghost predicate NearestLine(lines: seq<string>, start: nat, needle: string, h: nat) {
    && HitLine(Join(lines, '\n'), needle, 0, h)
    && forall x :: HitLine(Join(lines, '\n'), needle, 0, x) ==> Nearer(h, x, start)
  }

  lemma NearestExact(lines: seq<string>, start: nat, needle: string, h: nat)
    ensures Hits(Join(lines, '\n'), needle) != [] && h == Nearest(Hits(Join(lines, '\n'), needle), start)
            <==> NearestLine(lines, start, needle, h)
  {
    HitsExact(Join(lines, '\n'), needle);
    var hits := Hits(Join(lines, '\n'), needle);
    if NearestLine(lines, start, needle, h) {
      assert h in hits;
      var n := Nearest(hits, start);
      assert Nearer(h, n, start) && Nearer(n, h, start);
    }
  }

  /** What the fixer does with every citation: it rewrites one of a local file if and only
      if its anchor's text is outside its range but in the file, with room for the range
      at the nearest such line, and then to that line. */
  lemma RewriteExact(ctx: Context, pieces: seq<string>, k: nat, h: nat, e: nat)
    requires IsCite(pieces, k) && Free(pieces, TICK)
    ensures var c, r := Body(pieces[k]).value, RepairOf(ctx, pieces, k);
            (r.Rewrite? && r.start == h && r.end == e) <==>
            Local(ctx, c.path) && exists t :: Anchors(Behind(pieces, k), t) && MovesTo(FileLines(ctx.files[c.path]), Start(c), End(c), Strip(t), h, e)
  {
    var c := Body(pieces[k]).value;
    PathsExact(ctx, c.path);
    AnchorOfText(pieces, k);
    ReadingExact(Behind(pieces, k));
    if Local(ctx, c.path) && AnchorAt(pieces, k).Anchor? {
      MovesExact(FileLines(ctx.files[c.path]), Start(c), End(c), Strip(AnchorAt(pieces, k).text), h, e);
    }
  }

  ghost predicate MovesTo(lines: seq<string>, start: nat, end: nat, needle: string, h: nat, e: nat) {
    && !InRange(lines, start, end, needle) && NearestLine(lines, start, needle, h)
    && e == h + Width(start, end, needle) <= |lines|
  }

  lemma MovesExact(lines: seq<string>, start: nat, end: nat, needle: string, h: nat, e: nat)
    ensures var r := RepairAnchored(lines, start, end, needle);
            (r.Rewrite? && r.start == h && r.end == e) <==> MovesTo(lines, start, end, needle, h, e)
  {
    NearestExact(lines, start, needle, h);
  }
}
