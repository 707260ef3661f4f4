/** Exactly when a rewritten citation passes afterwards, and exactly when a second run
    of the fixer changes nothing. */
module CitationExact {
  import opened PyText
  import opened CitationText
  import opened CitationGate
  import opened CitationFacts
  import opened CitationFix
  import opened CitationEdits
  import opened CitationNested

  /** The pieces of the fixed text. */
  ghost function Fixed(ctx: Context, pieces: seq<string>): (out: seq<string>)
    requires pieces != []
    ensures |out| == |pieces|
  {
    FixedPieces(Flags(pieces), NewBodies(ctx, pieces), pieces)
  }

  // ------------------------------------------------------- anchors that are rewritten

  /** An unstable anchor reads, after the fix, as the new text of the citation it is. */
  lemma UnstableAnchor(ctx: Context, pieces: seq<string>, k: nat)
    requires k in Citations(pieces) && !Stable(ctx, pieces, k)
    ensures IsCite(pieces, k) && IsCite(pieces, k + 2) && NewBody(ctx, pieces, k + 2).Some?
    ensures var q := NewBody(ctx, pieces, k + 2).value;
            && Body(q).Some? && Strip(q) == q
            && AnchorAt(Fixed(ctx, pieces), k) == if 4 <= |q| <= 120 then Anchor(q) else Unparsed
  {
    assert IsCite(pieces, k) && IsCite(pieces, k + 2);
    var after, q := Fixed(ctx, pieces), NewBody(ctx, pieces, k + 2).value;
    NextIsNoCite(pieces, k);
    PieceAfter(ctx, pieces, k + 1);
    PieceAfter(ctx, pieces, k + 2);
    RewrittenBody(ctx, pieces, k + 2);
    BodyTight(q);
    assert TickAnchored(after, k) && after[k + 2] == q;
    BodyReads(q);
  }

  /** A citation between backticks reads as an anchor, if its length is that of one. */
  lemma BodyReads(q: string)
    requires Body(q).Some?
    ensures q != [] && Delimited(q, 0, true) == if 4 <= |q| <= 120 then Anchor(q) else Unparsed
  {
    BodyEnds(q);
    BodyChars(q);
    RunWhole(q, 0);
    assert q[0..|q|] == q;
  }

  /** What piece `k` says after the fix. */
  lemma CiteAfter(ctx: Context, pieces: seq<string>, k: nat)
    requires k in Citations(pieces) && IsCite(pieces, k)
    ensures var after, c, r := Fixed(ctx, pieces), Body(pieces[k]).value, RepairOf(ctx, pieces, k);
            && IsCite(after, k) && Body(after[k]).value.path == c.path
            && Start(Body(after[k]).value) == Named(ctx, pieces, k).0 && End(Body(after[k]).value) == Named(ctx, pieces, k).1
            && (!r.Rewrite? ==> after[k] == pieces[k])
  {
    PieceAfter(ctx, pieces, k);
    if RepairOf(ctx, pieces, k).Rewrite? { RewrittenBody(ctx, pieces, k); }
  }

  /** The range the citation in piece `k` names after the fix. */
  function Named(ctx: Context, pieces: seq<string>, k: nat): (nat, nat)
    requires IsCite(pieces, k)
  {
    var c, r := Body(pieces[k]).value, RepairOf(ctx, pieces, k);
    if r.Rewrite? then (r.start, r.end) else (Start(c), End(c))
  }

  /** Citations of a file that is there and is judged. */
  predicate Judged(ctx: Context, path: string) { !ForeignPath(path) && path in ctx.files }

  lemma UnstableGrade(ctx: Context, pieces: seq<string>, k: nat, mode: Mode)
    requires k in Citations(pieces) && IsCite(pieces, k) && !Stable(ctx, pieces, k) && IsCite(Fixed(ctx, pieces), k)
    requires Judged(ctx, Body(pieces[k]).value.path)
    ensures IsCite(pieces, k + 2) && NewBody(ctx, pieces, k + 2).Some?
    ensures var q, span, lines := NewBody(ctx, pieces, k + 2).value, Named(ctx, pieces, k), FileLines(ctx.files[Body(pieces[k]).value.path]);
            && (4 <= |q| <= 120 ==>
                  && GradeOf(ctx, Fixed(ctx, pieces), k, mode) == GradeAnchored(lines, span.0, span.1, q, mode)
                  && RepairOf(ctx, Fixed(ctx, pieces), k) == RepairAnchored(lines, span.0, span.1, q))
            && (!(4 <= |q| <= 120) ==>
                  !GradeOf(ctx, Fixed(ctx, pieces), k, mode).PassInRange? && !RepairOf(ctx, Fixed(ctx, pieces), k).Rewrite?)
  {
    CiteAfter(ctx, pieces, k);
    UnstableAnchor(ctx, pieces, k);
    var q := NewBody(ctx, pieces, k + 2).value;
    if 4 <= |q| <= 120 {
      ReadAsAnchor(ctx, Fixed(ctx, pieces), k, q, mode);
    } else {
      ReadUnparsed(ctx, Fixed(ctx, pieces), k, mode);
    }
  }

  lemma ReadAsAnchor(ctx: Context, pieces: seq<string>, k: nat, q: string, mode: Mode)
    requires IsCite(pieces, k) && Judged(ctx, Body(pieces[k]).value.path)
    requires AnchorAt(pieces, k) == Anchor(q) && Strip(q) == q
    ensures var c := Body(pieces[k]).value;
            var lines := FileLines(ctx.files[c.path]);
            && GradeOf(ctx, pieces, k, mode) == GradeAnchored(lines, Start(c), End(c), q, mode)
            && RepairOf(ctx, pieces, k) == RepairAnchored(lines, Start(c), End(c), q)
  {
  }

  lemma ReadUnparsed(ctx: Context, pieces: seq<string>, k: nat, mode: Mode)
    requires IsCite(pieces, k) && Judged(ctx, Body(pieces[k]).value.path) && AnchorAt(pieces, k).Unparsed?
    ensures !GradeOf(ctx, pieces, k, mode).PassInRange? && !RepairOf(ctx, pieces, k).Rewrite?
  {
  }

  // ------------------------------------------------------------------ fix then check

  /** The new text of the anchor, a citation itself, stands in the range the citation
      is rewritten to. */
  predicate NewAnchorInRange(ctx: Context, pieces: seq<string>, k: nat)
    requires IsCite(pieces, k) && RepairOf(ctx, pieces, k).Rewrite?
  {
    && IsCite(pieces, k + 2) && NewBody(ctx, pieces, k + 2).Some?
    && var q, r := NewBody(ctx, pieces, k + 2).value, RepairOf(ctx, pieces, k);
       4 <= |q| <= 120 && InRange(FileLines(ctx.files[Body(pieces[k]).value.path]), r.start, r.end, q)
  }

  /** Every rewritten citation passes afterwards, in every mode, if and only if its
      anchor is not a rewritten citation, or its new range holds the new text of it. */
  lemma FixPassesExact(ctx: Context, text: string, k: nat, mode: Mode)
    requires k in Citations(Pieces(text)) && RepairOf(ctx, Pieces(text), k).Rewrite?
    ensures IsCite(Pieces(FixedText(ctx, text)), k)
    ensures GradeOf(ctx, Pieces(FixedText(ctx, text)), k, mode) == PassInRange
            <==> Stable(ctx, Pieces(text), k) || NewAnchorInRange(ctx, Pieces(text), k)
  {
    var pieces := Pieces(text);
    FixedTextPieces(ctx, text);
    if Stable(ctx, pieces, k) {
      FixThenCheck(ctx, text, k, mode);
    } else {
      UnstablePasses(ctx, pieces, k, mode);
    }
  }

  lemma UnstablePasses(ctx: Context, pieces: seq<string>, k: nat, mode: Mode)
    requires k in Citations(pieces) && IsCite(pieces, k) && RepairOf(ctx, pieces, k).Rewrite? && !Stable(ctx, pieces, k)
    ensures IsCite(Fixed(ctx, pieces), k)
    ensures GradeOf(ctx, Fixed(ctx, pieces), k, mode) == PassInRange <==> NewAnchorInRange(ctx, pieces, k)
  {
    RewriteChoice(ctx, pieces, k);
    CiteAfter(ctx, pieces, k);
    UnstableGrade(ctx, pieces, k, mode);
    RangeGrade(FileLines(ctx.files[Body(pieces[k]).value.path]), Named(ctx, pieces, k), NewBody(ctx, pieces, k + 2).value, mode);
  }

  lemma RangeGrade(lines: seq<string>, span: (nat, nat), q: string, mode: Mode)
    ensures GradeAnchored(lines, span.0, span.1, q, mode) == PassInRange <==> InRange(lines, span.0, span.1, q)
  {
  }

  // ------------------------------------------------------------------ fix twice

  /** The anchor of the citation in piece `k` is rewritten, and its new text is outside
      the range the citation then names but elsewhere in the file, with room for the
      range there. */
  predicate EditsAgain(ctx: Context, pieces: seq<string>, k: nat)
    requires IsCite(pieces, k)
  {
    && TickAnchored(pieces, k) && k + 2 in Citations(pieces) && IsCite(pieces, k + 2) && NewBody(ctx, pieces, k + 2).Some?
    && Judged(ctx, Body(pieces[k]).value.path)
    && var q, lines, span := NewBody(ctx, pieces, k + 2).value, FileLines(ctx.files[Body(pieces[k]).value.path]), Named(ctx, pieces, k);
       var hits := Hits(Join(lines, '\n'), q);
       && 4 <= |q| <= 120 && !InRange(lines, span.0, span.1, q)
       && hits != [] && Nearest(hits, span.0) + Width(span.0, span.1, q) <= |lines|
  }

  lemma RewrittenAgain(ctx: Context, text: string, k: nat)
    requires k in Citations(Pieces(text)) && IsCite(Pieces(text), k)
    ensures IsCite(Fixed(ctx, Pieces(text)), k)
    ensures RepairOf(ctx, Fixed(ctx, Pieces(text)), k).Rewrite? <==> EditsAgain(ctx, Pieces(text), k)
  {
    var pieces := Pieces(text);
    CiteAfter(ctx, pieces, k);
    if Stable(ctx, pieces, k) {
      StableSettles(ctx, text, k);
    } else if Judged(ctx, Body(pieces[k]).value.path) {
      UnstableGrade(ctx, pieces, k, Mode(false, false, false, false));
      RangeRepair(FileLines(ctx.files[Body(pieces[k]).value.path]), Named(ctx, pieces, k), NewBody(ctx, pieces, k + 2).value);
    }
  }

  lemma RangeRepair(lines: seq<string>, span: (nat, nat), q: string)
    ensures var hits := Hits(Join(lines, '\n'), q);
            RepairAnchored(lines, span.0, span.1, q).Rewrite? <==>
            !InRange(lines, span.0, span.1, q) && hits != [] && Nearest(hits, span.0) + Width(span.0, span.1, q) <= |lines|
  {
  }

  lemma StableSettles(ctx: Context, text: string, k: nat)
    requires k in Citations(Pieces(text)) && IsCite(Pieces(text), k) && Stable(ctx, Pieces(text), k)
    ensures IsCite(Fixed(ctx, Pieces(text)), k) && !RepairOf(ctx, Fixed(ctx, Pieces(text)), k).Rewrite?
  {
    var pieces := Pieces(text);
    FixedTextPieces(ctx, text);
    CiteAfter(ctx, pieces, k);
    if RepairOf(ctx, pieces, k).Rewrite? {
      FixThenCheck(ctx, text, k, Mode(false, false, false, false));
    } else {
      StableAnchorKept(ctx, pieces, k);
      StillNotRewritten(ctx, pieces, Fixed(ctx, pieces), k);
    }
  }

  /** A text is left as it is if and only if the fixer rewrites none of its citations. */
  lemma FixedExact(ctx: Context, text: string)
    ensures FixedText(ctx, text) == text
            <==> forall k :: k in Citations(Pieces(text)) ==> IsCite(Pieces(text), k) && !RepairOf(ctx, Pieces(text), k).Rewrite?
  {
    var pieces := Pieces(text);
    if forall k :: k in Citations(pieces) ==> !RepairOf(ctx, pieces, k).Rewrite? {
      NoEdits(ctx, pieces, Citations(pieces));
      TextEditsOrdered(ctx, text);
      assert text[0..] == text;
    } else {
      var k :| k in Citations(pieces) && RepairOf(ctx, pieces, k).Rewrite?;
      FixedTextPieces(ctx, text);
      PieceAfter(ctx, pieces, k);
      RewriteDiffers(ctx, pieces, k);
    }
  }

  /** A second run changes nothing if and only if no citation's rewritten anchor calls
      for another edit. */
  lemma FixTwiceExact(ctx: Context, text: string)
    ensures FixedText(ctx, FixedText(ctx, text)) == FixedText(ctx, text)
            <==> forall k :: k in Citations(Pieces(text)) ==> IsCite(Pieces(text), k) && !EditsAgain(ctx, Pieces(text), k)
  {
    var pieces, fixed := Pieces(text), FixedText(ctx, text);
    FixedTextPieces(ctx, text);
    FixedExact(ctx, fixed);
    forall k | k in Citations(pieces)
      ensures IsCite(Fixed(ctx, pieces), k)
      ensures RepairOf(ctx, Fixed(ctx, pieces), k).Rewrite? <==> EditsAgain(ctx, pieces, k)
    {
      RewrittenAgain(ctx, text, k);
    }
  }
}
