/** Fix then check: what the fixer rewrites, the checker passes, on the text itself. */
module CitationFix {
  import opened PyText
  import opened CitationText
  import opened CitationGate
  import opened CitationFacts
  import opened CitationEdits
  import opened CitationFences
  import opened Splice

  /** Each rewrite replaces a citation by one whose text opens alike. */
  ghost predicate GoodNews(pieces: seq<string>, news: seq<Option<string>>) {
    && |news| == |pieces|
    && forall k :: 0 <= k < |pieces| && news[k].Some? ==> IsCite(pieces, k) && Alike(pieces[k], news[k].value)
  }

  predicate OpensAlike(was: string, now: string) {
    was != [] && now != [] && was[0] == now[0] != TICK && '\n' !in was && '\n' !in now
  }

  ghost predicate Alike(was: string, now: string) { OpensAlike(was, now) && TICK !in now && Body(now).Some? }

  lemma PrintedAlike(ctx: Context, pieces: seq<string>, k: nat)
    requires IsCite(pieces, k) && NewBody(ctx, pieces, k).Some?
    ensures Alike(pieces[k], NewBody(ctx, pieces, k).value)
  {
    var c := Body(pieces[k]).value;
    RewriteChoice(ctx, pieces, k);
    var r := RepairOf(ctx, pieces, k);
    RepairChoice(FileLines(ctx.files[c.path]), Start(c), End(c), Strip(AnchorAt(pieces, k).text));
    PrintedReads(c, r.start, r.end);
    BodyShape(pieces[k]);
    PathFree(c.path);
  }

  lemma NewBodiesGood(ctx: Context, pieces: seq<string>)
    ensures GoodNews(pieces, NewBodies(ctx, pieces))
  {
    var news := NewBodies(ctx, pieces);
    forall k | 0 <= k < |pieces| && news[k].Some? ensures IsCite(pieces, k) && Alike(pieces[k], news[k].value) {
      PrintedAlike(ctx, pieces, k);
    }
  }

  lemma SpanGood(text: string, x: Edit, was: string, now: string)
    requires x.s <= x.e <= |text| && text[x.s..x.e] == [TICK] + was + [TICK]
    requires x.repl == [TICK] + now + [TICK] && OpensAlike(was, now)
    ensures Good(text, x)
  {
    var a, b := [TICK] + was + [TICK], [TICK] + now + [TICK];
    assert a[1] == was[0] && b[1] == now[0];
  }

  lemma EditGood(pieces: seq<string>, news: seq<Option<string>>, k: nat)
    requires 0 < k && k + 1 < |pieces| == |news| && news[k].Some? && OpensAlike(pieces[k], news[k].value)
    ensures Good(Join(pieces, TICK), EditAt(news, pieces, k)[0])
  {
    OffsetTail(pieces, k);
    OffsetSlices(pieces, k, 0);
    SpanGood(Join(pieces, TICK), EditAt(news, pieces, k)[0], pieces[k], news[k].value);
  }

  lemma {:induction false} EditsGood(pieces: seq<string>, news: seq<Option<string>>, ks: seq<nat>)
    requires GoodNews(pieces, news) && forall i :: 0 <= i < |ks| ==> 0 < ks[i] < |pieces|
    ensures forall i :: 0 <= i < |EditsOf(news, pieces, ks)| ==> Good(Join(pieces, TICK), EditsOf(news, pieces, ks)[i])
    decreases ks
  {
    if ks != [] {
      EditsGood(pieces, news, ks[1..]);
      var rest := EditsOf(news, pieces, ks[1..]);
      if news[ks[0]].Some? {
        assert IsCite(pieces, ks[0]) && Alike(pieces[ks[0]], news[ks[0]].value);
        EditGood(pieces, news, ks[0]);
      }
      assert EditsOf(news, pieces, ks) == EditAt(news, pieces, ks[0]) + rest;
    }
  }

  // ------------------------------------------------------------- the fixed text

  ghost function TextEdits(ctx: Context, text: string): seq<Edit> {
    var pieces := Pieces(text);
    EditsOf(NewBodies(ctx, pieces), pieces, Citations(pieces))
  }

  lemma TextEditsOrdered(ctx: Context, text: string)
    ensures Ordered(TextEdits(ctx, text), 0, |text|)
    ensures |StripFenced(text)| == |text| && Join(Pieces(text), TICK) == StripFenced(text)
    ensures forall i :: 0 <= i < |TextEdits(ctx, text)| ==> Good(StripFenced(text), TextEdits(ctx, text)[i])
  {
    var pieces := Pieces(text);
    var news := NewBodies(ctx, pieces);
    StripLengthText(text);
    JoinSplit(StripFenced(text), TICK);
    NewBodiesGood(ctx, pieces);
    EditsGood(pieces, news, Citations(pieces));
    if |pieces| > 1 {
      EditsSplice(Flags(pieces), news, pieces, 1, 0);
    }
  }

  /** What the fixer returns: every edit spliced into the original text at once. */
  ghost function FixedText(ctx: Context, text: string): string {
    TextEditsOrdered(ctx, text);
    Splice.Splice(text, 0, TextEdits(ctx, text))
  }

  lemma FixedPiecesFree(pieces: seq<string>, news: seq<Option<string>>)
    requires |pieces| >= 1 && Free(pieces, TICK) && GoodNews(pieces, news)
    ensures Free(FixedPieces(Flags(pieces), news, pieces), TICK)
    ensures Flags(FixedPieces(Flags(pieces), news, pieces)) == Flags(pieces)
  {
    var flags := Flags(pieces);
    var out := FixedPieces(flags, news, pieces);
    forall i | 0 <= i < |out| ensures TICK !in out[i] && (Body(out[i]).Some? <==> Body(pieces[i]).Some?) {
      if i > 0 {
        FixedFromAt(flags, news, pieces, 1, i);
        assert out[i] == FixedFrom(flags, news, pieces, 1)[i - 1];
        if news[i].Some? { assert Alike(pieces[i], news[i].value); }
      }
    }
    assert Flags(out) == flags;
  }

  /** The pieces of the fixed text are the fixed pieces: blanking, splitting and the
      search see the same citations in the same places. */
  lemma FixedTextPieces(ctx: Context, text: string)
    ensures var pieces := Pieces(text);
            && Pieces(FixedText(ctx, text)) == FixedPieces(Flags(pieces), NewBodies(ctx, pieces), pieces)
            && Citations(Pieces(FixedText(ctx, text))) == Citations(pieces)
  {
    var pieces := Pieces(text);
    var flags, news := Flags(pieces), NewBodies(ctx, pieces);
    TextEditsOrdered(ctx, text);
    StripEdits(text, TextEdits(ctx, text));
    JoinSplit(StripFenced(text), TICK);
    NewBodiesGood(ctx, pieces);
    FixedPiecesFree(pieces, news);
    var out := FixedPieces(flags, news, pieces);
    FixedJoin(flags, news, pieces);
    SplitJoin(out, TICK);
  }

  lemma FixedJoin(flags: seq<bool>, news: seq<Option<string>>, pieces: seq<string>)
    requires 1 <= |pieces| == |news| == |flags|
    ensures var text, edits := Join(pieces, TICK), EditsOf(news, pieces, Scan(flags, 1));
            Ordered(edits, 0, |text|) && Splice.Splice(text, 0, edits) == Join(FixedPieces(flags, news, pieces), TICK)
  {
    var text := Join(pieces, TICK);
    if |pieces| == 1 {
      assert text[0..] == text && FixedPieces(flags, news, pieces) == pieces;
    } else {
      EditsSplice(flags, news, pieces, 1, 0);
      FirstPiece(pieces);
      FixedJoinFirst(pieces[0], FixedFrom(flags, news, pieces, 1));
    }
  }

  lemma FirstPiece(pieces: seq<string>)
    requires |pieces| > 1
    ensures Offset(pieces, 1) - 1 == |pieces[0]| <= |Join(pieces, TICK)|
    ensures Join(pieces, TICK)[0..Offset(pieces, 1) - 1] == pieces[0]
  {
    assert Offset(pieces, 0) == 0;
    assert Join(pieces, TICK) == pieces[0] + ([TICK] + Join(pieces[1..], TICK));
  }

  lemma FixedJoinFirst(p: string, rest: seq<string>)
    requires rest != []
    ensures p + ([TICK] + Join(rest, TICK)) == Join([p] + rest, TICK)
  {
    JoinCons(p, rest);
  }

  lemma PieceAfter(ctx: Context, pieces: seq<string>, i: nat)
    requires 0 < i < |pieces|
    ensures var out := FixedPieces(Flags(pieces), NewBodies(ctx, pieces), pieces);
            && (i in Citations(pieces) ==> out[i] == FixedAt(NewBodies(ctx, pieces), pieces, i))
            && (i !in Citations(pieces) ==> out[i] == pieces[i])
  {
    FixedFromAt(Flags(pieces), NewBodies(ctx, pieces), pieces, 1, i);
    assert FixedPieces(Flags(pieces), NewBodies(ctx, pieces), pieces)[i] == FixedFrom(Flags(pieces), NewBodies(ctx, pieces), pieces, 1)[i - 1];
  }

  // -------------------------------------------------------------- stable anchors

  /** The anchor's opening delimiter is the backtick that opens piece `k + 2`. */
  predicate TickAnchored(pieces: seq<string>, k: nat)
    requires k + 1 < |pieces|
  {
    AfterParen(pieces[k + 1]) == Some(|pieces[k + 1]|)
  }

  /** The anchor of the citation in piece `k` is not itself a citation the fixer rewrites. */
  ghost predicate Stable(ctx: Context, pieces: seq<string>, k: nat)
    requires k + 1 < |pieces|
  {
    !(TickAnchored(pieces, k) && k + 2 in Citations(pieces) && RepairOf(ctx, pieces, k + 2).Rewrite?)
  }

  lemma NextIsNoCite(pieces: seq<string>, k: nat)
    requires k in Citations(pieces)
    ensures k + 1 !in Citations(pieces)
  {
    ScanApart(Flags(pieces), 1, k);
  }

  lemma AnchorDependsOn(pieces: seq<string>, out: seq<string>, k: nat)
    requires |out| == |pieces| && k + 1 < |pieces| && out[k + 1] == pieces[k + 1]
    requires TickAnchored(pieces, k) && k + 2 < |pieces| ==> out[k + 2] == pieces[k + 2]
    ensures AnchorAt(out, k) == AnchorAt(pieces, k)
  {
  }

  lemma StableAnchorKept(ctx: Context, pieces: seq<string>, k: nat)
    requires k in Citations(pieces) && Stable(ctx, pieces, k)
    ensures k + 1 < |pieces|
    ensures AnchorAt(FixedPieces(Flags(pieces), NewBodies(ctx, pieces), pieces), k) == AnchorAt(pieces, k)
  {
    assert IsCite(pieces, k);
    NextIsNoCite(pieces, k);
    PieceAfter(ctx, pieces, k + 1);
    if k + 2 < |pieces| { PieceAfter(ctx, pieces, k + 2); }
    AnchorDependsOn(pieces, FixedPieces(Flags(pieces), NewBodies(ctx, pieces), pieces), k);
  }

  /** Fix then check: a rewritten citation whose anchor is stable names, in the fixed
      text, the same file and the new range, and passes in range under every mode:
      as a new citation, under strict lines, released or not. */
  lemma FixThenCheck(ctx: Context, text: string, k: nat, mode: Mode)
    requires k in Citations(Pieces(text)) && RepairOf(ctx, Pieces(text), k).Rewrite? && Stable(ctx, Pieces(text), k)
    ensures var after := Pieces(FixedText(ctx, text));
            && IsCite(after, k) && k in Citations(after)
            && GradeOf(ctx, after, k, mode) == PassInRange
            && RepairOf(ctx, after, k) == Kept
            && var c, r := Body(after[k]).value, RepairOf(ctx, Pieces(text), k);
               c.path == Body(Pieces(text)[k]).value.path && Start(c) == r.start && End(c) == r.end
  {
    var pieces := Pieces(text);
    FixedTextPieces(ctx, text);
    PieceAfter(ctx, pieces, k);
    StableAnchorKept(ctx, pieces, k);
    var after := Pieces(FixedText(ctx, text));
    RewrittenBody(ctx, pieces, k);
    assert after[k] == NewBody(ctx, pieces, k).value;
    RewrittenPasses(ctx, pieces, after, k, mode);
  }

  lemma RewrittenBody(ctx: Context, pieces: seq<string>, k: nat)
    requires IsCite(pieces, k) && RepairOf(ctx, pieces, k).Rewrite?
    ensures NewBody(ctx, pieces, k).Some?
    ensures var b, c, r := Body(NewBody(ctx, pieces, k).value), Body(pieces[k]).value, RepairOf(ctx, pieces, k);
            b.Some? && b.value.path == c.path && Start(b.value) == r.start && End(b.value) == r.end
  {
    var c, r := Body(pieces[k]).value, RepairOf(ctx, pieces, k);
    RewriteChoice(ctx, pieces, k);
    RepairChoice(FileLines(ctx.files[c.path]), Start(c), End(c), Strip(AnchorAt(pieces, k).text));
    PrintedReads(c, r.start, r.end);
  }

  lemma RewrittenPasses(ctx: Context, pieces: seq<string>, after: seq<string>, k: nat, mode: Mode)
    requires IsCite(pieces, k) && RepairOf(ctx, pieces, k).Rewrite? && IsCite(after, k)
    requires var b, c, r := Body(after[k]).value, Body(pieces[k]).value, RepairOf(ctx, pieces, k);
             b.path == c.path && Start(b) == r.start && End(b) == r.end
    requires AnchorAt(after, k) == AnchorAt(pieces, k)
    ensures GradeOf(ctx, after, k, mode) == PassInRange && RepairOf(ctx, after, k) == Kept
  {
    var c, r := Body(pieces[k]).value, RepairOf(ctx, pieces, k);
    RewriteChoice(ctx, pieces, k);
    RepairInRange(FileLines(ctx.files[c.path]), Start(c), End(c), Strip(AnchorAt(pieces, k).text));
  }

  /** When every anchor is stable, a second run makes no edit. */
  lemma FixTwice(ctx: Context, text: string)
    requires forall k :: k in Citations(Pieces(text)) ==> IsCite(Pieces(text), k) && Stable(ctx, Pieces(text), k)
    ensures FixedText(ctx, FixedText(ctx, text)) == FixedText(ctx, text)
  {
    var pieces, fixed := Pieces(text), FixedText(ctx, text);
    var after := Pieces(fixed);
    FixedTextPieces(ctx, text);
    forall k | k in Citations(after) ensures !RepairOf(ctx, after, k).Rewrite? {
      if RepairOf(ctx, pieces, k).Rewrite? {
        FixThenCheck(ctx, text, k, Mode(false, false, false, false));
      } else {
        PieceAfter(ctx, pieces, k);
        StableAnchorKept(ctx, pieces, k);
        StillNotRewritten(ctx, pieces, after, k);
      }
    }
    NoEdits(ctx, after, Citations(after));
    TextEditsOrdered(ctx, fixed);
    assert fixed[0..] == fixed;
  }

  lemma StillNotRewritten(ctx: Context, pieces: seq<string>, after: seq<string>, k: nat)
    requires IsCite(pieces, k) && !RepairOf(ctx, pieces, k).Rewrite? && IsCite(after, k)
    requires after[k] == pieces[k] && AnchorAt(after, k) == AnchorAt(pieces, k)
    ensures !RepairOf(ctx, after, k).Rewrite?
  {
  }

  lemma {:induction false} NoEdits(ctx: Context, pieces: seq<string>, ks: seq<nat>)
    requires AllCites(pieces, ks) && forall k :: k in ks ==> !RepairOf(ctx, pieces, k).Rewrite?
    requires forall i :: 0 <= i < |ks| ==> 0 < ks[i] < |pieces|
    ensures EditsOf(NewBodies(ctx, pieces), pieces, ks) == []
    decreases ks
  {
    if ks != [] {
      assert ks[0] in ks;
      NoEdits(ctx, pieces, ks[1..]);
    }
  }

  // ------------------------------------------------------------ the fixer's loop

  function RewritesOf(ctx: Context, pieces: seq<string>, ks: seq<nat>): seq<(nat, Repair)>
    requires AllCites(pieces, ks)
    decreases ks
  {
    if ks == [] then []
    else
      assert IsCite(pieces, ks[0]);
      var r := RepairOf(ctx, pieces, ks[0]);
      (if r.Rewrite? then [(ks[0], r)] else []) + RewritesOf(ctx, pieces, ks[1..])
  }

  function ProblemsOf(ctx: Context, pieces: seq<string>, ks: seq<nat>): seq<nat>
    requires AllCites(pieces, ks)
    decreases ks
  {
    if ks == [] then []
    else
      assert IsCite(pieces, ks[0]);
      (if RepairOf(ctx, pieces, ks[0]).NeedsHuman? then [ks[0]] else []) + ProblemsOf(ctx, pieces, ks[1..])
  }

  function UnanchoredCount(ctx: Context, pieces: seq<string>, ks: seq<nat>): nat
    requires AllCites(pieces, ks)
    decreases ks
  {
    if ks == [] then 0
    else
      assert IsCite(pieces, ks[0]);
      (if RepairOf(ctx, pieces, ks[0]).Unanchored? then 1 else 0) + UnanchoredCount(ctx, pieces, ks[1..])
  }

  /** What one repair adds to the fixer's three reports. */
  method ReportRepair(k: nat, r: Repair) returns (rw: seq<(nat, Repair)>, pr: seq<nat>, un: nat)
    ensures rw == if r.Rewrite? then [(k, r)] else []
    ensures pr == if r.NeedsHuman? then [k] else []
    ensures un == if r.Unanchored? then 1 else 0
  {
    rw, pr, un := [], [], 0;
    match r {
      case Rewrite(start, end, mark) => rw := [(k, Rewrite(start, end, mark))];
      case NeedsHuman => pr := [k];
      case Unanchored => un := 1;
      case _ =>
    }
  }

  method CollectRepairs(ctx: Context, pieces: seq<string>)
    returns (edits: seq<Edit>, rewrites: seq<(nat, Repair)>, problems: seq<nat>, unanchored: nat)
    ensures var ks := Citations(pieces);
            && edits == EditsOf(NewBodies(ctx, pieces), pieces, ks)
            && rewrites == RewritesOf(ctx, pieces, ks) && problems == ProblemsOf(ctx, pieces, ks)
            && unanchored == UnanchoredCount(ctx, pieces, ks)
  {
    edits, rewrites, problems, unanchored := [], [], [], 0;
    var ks, news := Citations(pieces), NewBodies(ctx, pieces);
    for i := 0 to |ks|
      invariant AllCites(pieces, ks[i..])
      invariant edits + EditsOf(news, pieces, ks[i..]) == EditsOf(news, pieces, ks)
      invariant rewrites + RewritesOf(ctx, pieces, ks[i..]) == RewritesOf(ctx, pieces, ks)
      invariant problems + ProblemsOf(ctx, pieces, ks[i..]) == ProblemsOf(ctx, pieces, ks)
      invariant unanchored + UnanchoredCount(ctx, pieces, ks[i..]) == UnanchoredCount(ctx, pieces, ks)
    {
      var k := ks[i];
      assert ks[i..][0] == k && ks[i..][1..] == ks[i + 1..];
      assert IsCite(pieces, k);
      var one := EditAt(news, pieces, k);
      var rw, pr, un := ReportRepair(k, RepairOf(ctx, pieces, k));
      unanchored := unanchored + un;
      ghost var rest := ks[i + 1..];
      Assoc(edits, one, EditsOf(news, pieces, rest));
      Assoc(rewrites, rw, RewritesOf(ctx, pieces, rest));
      Assoc(problems, pr, ProblemsOf(ctx, pieces, rest));
      edits, rewrites, problems := edits + one, rewrites + rw, problems + pr;
    }
  }

  /** The fixer: edits collected in order on the blanked copy, spliced forward into the
      original, everything else untouched. */
  method FixOne(ctx: Context, text: string)
    returns (newText: string, rewrites: seq<(nat, Repair)>, problems: seq<nat>, unanchored: nat)
    ensures newText == FixedText(ctx, text)
    ensures var pieces := Pieces(text);
            && rewrites == RewritesOf(ctx, pieces, Citations(pieces))
            && problems == ProblemsOf(ctx, pieces, Citations(pieces))
            && unanchored == UnanchoredCount(ctx, pieces, Citations(pieces))
  {
    var stripped := StripFencedBlocks(text);
    var pieces := SplitOn(stripped, TICK);
    var edits;
    edits, rewrites, problems, unanchored := CollectRepairs(ctx, pieces);
    TextEditsOrdered(ctx, text);
    if edits == [] {
      assert text[0..] == text;
      return text, rewrites, problems, unanchored;
    }
    newText := SpliceForward(text, edits);
  }

  // --------------------------------------------------------- the stability condition

  lemma BodyChars(piece: string)
    requires Body(piece).Some?
    ensures forall i :: 0 <= i < |piece| ==> !Closes(piece[i])
  {
    var parts := SplitOn(piece, ':');
    JoinSplit(piece, ':');
    PathChars(parts[0]);
    assert parts == [parts[0], parts[1]] && Join(parts, ':') == parts[0] + [':'] + parts[1];
    NumberChars(parts[1]);
  }

  lemma NumberChars(part: string)
    requires Numbers(part).Some?
    ensures forall i :: 0 <= i < |part| ==> !Closes(part[i])
  {
    var nums := SplitOn(part, '-');
    JoinSplit(part, '-');
    if |nums| == 2 { assert nums == [nums[0], nums[1]] && Join(nums, '-') == nums[0] + ['-'] + nums[1]; }
  }

  lemma {:induction false} RunWhole(s: string, i: nat)
    requires i <= |s| && forall k :: i <= k < |s| ==> !Closes(s[k])
    ensures RunLength(s, i) == |s|
    decreases |s| - i
  {
    if i < |s| { RunWhole(s, i + 1); }
  }

  lemma BodyDelimited(p: string)
    requires Body(p).Some?
    ensures Delimited(p, 0, true).Anchor? ==> Delimited(p, 0, true) == Anchor(p)
  {
    BodyChars(p);
    RunWhole(p, 0);
    assert p[0..|p|] == p;
  }

  lemma RewriteDiffers(ctx: Context, pieces: seq<string>, k: nat)
    requires IsCite(pieces, k) && RepairOf(ctx, pieces, k).Rewrite?
    ensures NewBody(ctx, pieces, k).Some? && NewBody(ctx, pieces, k).value != pieces[k]
  {
    var c, r := Body(pieces[k]).value, RepairOf(ctx, pieces, k);
    RewrittenBody(ctx, pieces, k);
    RewriteChoice(ctx, pieces, k);
    RepairInRange(FileLines(ctx.files[c.path]), Start(c), End(c), Strip(AnchorAt(pieces, k).text));
  }

  /** Stability is exact: an anchor reads the same after the fix if and only if it is
      not itself a citation that the fixer rewrites. */
  lemma AnchorKeptIffStable(ctx: Context, pieces: seq<string>, k: nat)
    requires k in Citations(pieces) && IsCite(pieces, k) && AnchorAt(pieces, k).Anchor?
    ensures AnchorAt(FixedPieces(Flags(pieces), NewBodies(ctx, pieces), pieces), k) == AnchorAt(pieces, k)
            <==> Stable(ctx, pieces, k)
  {
    if Stable(ctx, pieces, k) {
      StableAnchorKept(ctx, pieces, k);
    } else {
      var after := FixedPieces(Flags(pieces), NewBodies(ctx, pieces), pieces);
      assert IsCite(pieces, k + 2);
      NextIsNoCite(pieces, k);
      PieceAfter(ctx, pieces, k + 1);
      PieceAfter(ctx, pieces, k + 2);
      RewriteDiffers(ctx, pieces, k + 2);
      RewrittenBody(ctx, pieces, k + 2);
      BodyDelimited(pieces[k + 2]);
      BodyDelimited(after[k + 2]);
    }
  }
}
