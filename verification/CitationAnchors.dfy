/** What an anchor is, in the text behind a citation: the reader over the pieces between
    backticks is the anchor syntax over the text. */
module CitationAnchors {
  import opened PyText
  import opened CitationText
  import opened CitationFacts

  predicate Delimiter(c: char) { c == '"' || c == LEFT || c == TICK }

  /** The reader, on the text that follows a citation's closing backtick. */
  function ReadAnchor(rest: string): Anchor {
    match AfterParen(rest)
    case None => NoOpening
    case Some(j) => if j < |rest| && Delimiter(rest[j]) then Delimited(rest, j + 1, false) else NoOpening
  }

  // --------------------------------------------------------- the pieces and the text

  lemma {:induction false} SkipShort(a: string, b: string, i: nat)
    requires i <= |a| && (b == [] || !IsSpace(b[0]))
    ensures SkipSpace(a + b, i) == SkipSpace(a, i)
    decreases |a| - i
  {
    if i < |a| && IsSpace(a[i]) { SkipShort(a, b, i + 1); }
  }

  lemma {:induction false} RunShort(a: string, b: string, i: nat)
    requires i <= |a| && (b == [] || Closes(b[0]))
    ensures RunLength(a + b, i) == RunLength(a, i)
    decreases |a| - i
  {
    if i < |a| && !Closes(a[i]) { RunShort(a, b, i + 1); }
  }

  lemma {:induction false} RunShift(a: string, b: string, i: nat)
    requires i <= |b|
    ensures RunLength(a + b, |a| + i) == |a| + RunLength(b, i)
    decreases |b| - i
  {
    if i < |b| && !Closes(b[i]) { RunShift(a, b, i + 1); }
  }

  lemma ParenShort(a: string, b: string)
    requires b == [] || b[0] == TICK
    ensures AfterParen(a + b) == AfterParen(a)
  {
    SkipShort(a, b, 0);
    var i := SkipSpace(a, 0);
    if i < |a| && a[i] == '(' { SkipShort(a, b, i + 1); }
  }

  lemma DelimitedShort(a: string, b: string, i: nat)
    requires i <= |a| && (b == [] || b[0] == TICK)
    ensures Delimited(a + b, i, false) == Delimited(a, i, b != [])
  {
    RunShort(a, b, i);
    assert (a + b)[i..RunLength(a, i)] == a[i..RunLength(a, i)];
  }

  lemma DelimitedShift(a: string, b: string)
    ensures Delimited(a + b, |a|, false) == Delimited(b, 0, false)
  {
    RunShift(a, b, 0);
    assert (a + b)[|a|..|a| + RunLength(b, 0)] == b[0..RunLength(b, 0)];
  }

  /** The text behind piece `k`'s closing backtick: the next piece, and from its closing
      backtick on the rest. */
  lemma RestAfter(pieces: seq<string>, k: nat) returns (tail: string)
    requires k < |pieces|
    ensures Join(pieces[k..], TICK) == pieces[k] + tail
    ensures tail == if k + 1 < |pieces| then [TICK] + Join(pieces[k + 1..], TICK) else []
  {
    assert pieces[k..][0] == pieces[k] && pieces[k..][1..] == pieces[k + 1..];
    if k + 1 < |pieces| {
      tail := [TICK] + Join(pieces[k + 1..], TICK);
      Assoc(pieces[k], [TICK], Join(pieces[k + 1..], TICK));
    } else {
      tail := [];
      assert pieces[k..] == [pieces[k]] && pieces[k] + [] == pieces[k];
    }
  }

  /** The anchor of a citation is read off the text behind it. */
  lemma AnchorOfText(pieces: seq<string>, k: nat)
    requires k + 1 < |pieces| && TICK !in pieces[k + 1]
    ensures AnchorAt(pieces, k) == ReadAnchor(Join(pieces[k + 1..], TICK))
  {
    var lead := pieces[k + 1];
    var tail := RestAfter(pieces, k + 1);
    InLead(lead, tail);
    var p := AfterParen(lead);
    if p == Some(|lead|) && tail != [] { BehindTick(pieces, k, lead, tail); }
  }

  /** What the reader sees in the piece right behind the citation, and at its closing
      backtick. */
  lemma InLead(lead: string, tail: string)
    requires TICK !in lead && (tail == [] || tail[0] == TICK)
    ensures ReadAnchor(lead + tail) ==
            match AfterParen(lead)
            case None => NoOpening
            case Some(j) =>
              if j < |lead| then if lead[j] == '"' || lead[j] == LEFT then Delimited(lead, j + 1, tail != []) else NoOpening
              else if tail != [] then Delimited(lead + tail, |lead| + 1, false)
              else NoOpening
  {
    ParenShort(lead, tail);
    var p := AfterParen(lead);
    if p.Some? && p.value < |lead| { InsideLead(lead, tail, p.value); }
  }

  lemma InsideLead(lead: string, tail: string, j: nat)
    requires TICK !in lead && (tail == [] || tail[0] == TICK) && j < |lead|
    ensures (lead + tail)[j] == lead[j] && (Delimiter(lead[j]) <==> lead[j] == '"' || lead[j] == LEFT)
    ensures Delimited(lead + tail, j + 1, false) == Delimited(lead, j + 1, tail != [])
  {
    assert lead[j] in lead;
    DelimitedShort(lead, tail, j + 1);
  }

  lemma BehindTick(pieces: seq<string>, k: nat, lead: string, tail: string)
    requires k + 2 < |pieces| && tail == [TICK] + Join(pieces[k + 2..], TICK)
    ensures Delimited(lead + tail, |lead| + 1, false) == Delimited(pieces[k + 2], 0, k + 3 < |pieces|)
  {
    var more := Join(pieces[k + 2..], TICK);
    var after := RestAfter(pieces, k + 2);
    Assoc(lead, [TICK], more);
    DelimitedShift(lead + [TICK], more);
    DelimitedShort(pieces[k + 2], after, 0);
  }

  // -------------------------------------------------------------- the anchor syntax

  /** A double quote, straight or curly, or a backtick. */
  predicate OpeningMark(c: char) { c == '"' || c == '\U{201C}' || c == '`' }

  predicate ClosingMark(c: char) { c == '"' || c == '\U{201D}' || c == '`' }

  /** Whitespace, a parenthesis, whitespace and an opening delimiter, then `after`. */
  ghost predicate OpenForm(rest: string, w1: string, w2: string, open: char, after: string) {
    rest == (w1 + "(" + w2 + [open]) + after && AllSpace(w1) && AllSpace(w2) && OpeningMark(open)
  }

  /** The text of an anchor: 4 to 120 characters, none of them a closing delimiter. */
  predicate AnchorText(t: string) { 4 <= |t| <= 120 && forall i :: 0 <= i < |t| ==> !ClosingMark(t[i]) }

  /** An anchor with the text `t` opens the text `rest`: a parenthesis, a delimiter, the
      text and a closing delimiter, with any whitespace on either side of the
      parenthesis, line breaks included. */
  ghost predicate Anchors(rest: string, t: string) {
    exists w1, w2, open, close, after :: AnchorForm(rest, w1, w2, open, t, close, after)
  }

  ghost predicate AnchorForm(rest: string, w1: string, w2: string, open: char, t: string, close: char, after: string) {
    OpenForm(rest, w1, w2, open, t + ([close] + after)) && ClosingMark(close) && AnchorText(t)
  }

  /** Something opens like an anchor. */
  ghost predicate Opens(rest: string) { exists w1, w2, open, after :: OpenForm(rest, w1, w2, open, after) }

  /** And two delimiters stand back to back. */
  ghost predicate OpensTwice(rest: string) {
    exists w1, w2, open, after :: OpenForm(rest, w1, w2, open, after) && after != [] && ClosingMark(after[0])
  }

  lemma {:induction false} SkipAll(w: string, b: string)
    requires AllSpace(w) && (b == [] || !IsSpace(b[0]))
    ensures SkipSpace(w + b, 0) == |w|
  {
    SkipShort(w, b, 0);
    SkipEnd(w, 0);
  }

  lemma {:induction false} SkipEnd(w: string, i: nat)
    requires AllSpace(w) && i <= |w|
    ensures SkipSpace(w, i) == |w|
    decreases |w| - i
  {
    if i < |w| { SkipEnd(w, i + 1); }
  }

  lemma {:induction false} SkipShift(a: string, b: string, i: nat)
    requires i <= |b|
    ensures SkipSpace(a + b, |a| + i) == |a| + SkipSpace(b, i)
    decreases |b| - i
  {
    if i < |b| && IsSpace(b[i]) { SkipShift(a, b, i + 1); }
  }

  lemma ParenReads(w1: string, w2: string, open: char, after: string)
    requires AllSpace(w1) && AllSpace(w2) && Delimiter(open)
    ensures var front := w1 + "(" + w2 + [open];
            && AfterParen(front + after) == Some(|front| - 1) && (front + after)[|front| - 1] == open
            && ReadAnchor(front + after) == Delimited(after, 0, false)
  {
    var front, c := w1 + "(" + w2 + [open], [open] + after;
    ParenJoins(w1, w2, [open], after);
    SkipAll(w1, "(" + (w2 + c));
    assert (w1 + ("(" + (w2 + c)))[|w1|] == '(';
    SkipAll(w2, c);
    SkipShift(w1 + "(", w2 + c, 0);
    DelimitedShift(front, after);
  }

  lemma ParenJoins(w1: string, w2: string, open: string, after: string)
    ensures (w1 + "(" + w2 + open) + after == w1 + ("(" + (w2 + (open + after)))
    ensures (w1 + "(" + w2 + open) + after == (w1 + "(") + (w2 + (open + after))
  {
    Assoc(w1 + "(" + w2, open, after);
    Assoc(w1 + "(", w2, open + after);
    Assoc(w1, "(", w2 + (open + after));
  }

  lemma {:induction false} SpacesSkipped(s: string, i: nat)
    requires i <= |s|
    ensures AllSpace(s[i..SkipSpace(s, i)]) && (SkipSpace(s, i) < |s| ==> !IsSpace(s[SkipSpace(s, i)]))
    decreases |s| - i
  {
    if i < |s| && IsSpace(s[i]) {
      SpacesSkipped(s, i + 1);
      assert s[i..SkipSpace(s, i)] == [s[i]] + s[i + 1..SkipSpace(s, i)];
    }
  }

  /** What the reader took for the opening. */
  lemma OpeningParts(rest: string) returns (w1: string, w2: string, open: char, after: string)
    requires !ReadAnchor(rest).NoOpening?
    ensures OpenForm(rest, w1, w2, open, after) && ReadAnchor(rest) == Delimited(after, 0, false)
  {
    var i := SkipSpace(rest, 0);
    var j := SkipSpace(rest, i + 1);
    SpacesSkipped(rest, 0);
    SpacesSkipped(rest, i + 1);
    w1, w2, open, after := rest[0..i], rest[i + 1..j], rest[j], rest[j + 1..];
    assert rest == (w1 + "(" + w2 + [open]) + after;
    ParenReads(w1, w2, open, after);
  }

  lemma TextReads(t: string, close: char, after: string)
    requires AnchorText(t) && Closes(close)
    ensures Delimited(t + ([close] + after), 0, false) == Anchor(t)
  {
    RunShort(t, [close] + after, 0);
    RunAll(t, 0);
    assert (t + ([close] + after))[0..|t|] == t;
  }

  lemma {:induction false} RunAll(t: string, i: nat)
    requires i <= |t| && forall k :: i <= k < |t| ==> !Closes(t[k])
    ensures RunLength(t, i) == |t|
    decreases |t| - i
  {
    if i < |t| { RunAll(t, i + 1); }
  }

  lemma TextParts(s: string, t: string)
    requires Delimited(s, 0, false) == Anchor(t)
    ensures |t| < |s| && s == t + ([s[|t|]] + s[|t| + 1..]) && AnchorText(t) && Closes(s[|t|])
  {
    var j := RunLength(s, 0);
    assert t == s[0..j];
  }

  /** The reader finds an anchor's text if and only if the text behind the citation has
      the anchor syntax with that text. */
  lemma AnchorExact(rest: string, t: string)
    ensures ReadAnchor(rest) == Anchor(t) <==> Anchors(rest, t)
  {
    if ReadAnchor(rest) == Anchor(t) {
      var w1, w2, open, after := OpeningParts(rest);
      TextParts(after, t);
      assert AnchorForm(rest, w1, w2, open, t, after[|t|], after[|t| + 1..]);
    }
    forall w1, w2, open, close, after | AnchorForm(rest, w1, w2, open, t, close, after) ensures ReadAnchor(rest) == Anchor(t) {
      ParenReads(w1, w2, open, t + ([close] + after));
      TextReads(t, close, after);
    }
  }

  /** It sees no opening, or a malformed one, exactly when there is none, or two
      delimiters stand back to back. */
  lemma OpeningExact(rest: string)
    ensures !ReadAnchor(rest).NoOpening? <==> Opens(rest)
    ensures ReadAnchor(rest).BadOpening? <==> OpensTwice(rest)
  {
    if !ReadAnchor(rest).NoOpening? {
      var w1, w2, open, after := OpeningParts(rest);
      FirstCloses(after);
    }
    forall w1, w2, open, after | OpenForm(rest, w1, w2, open, after)
      ensures !ReadAnchor(rest).NoOpening? && (ReadAnchor(rest).BadOpening? <==> after != [] && Closes(after[0]))
    {
      ParenReads(w1, w2, open, after);
      FirstCloses(after);
    }
  }

  lemma FirstCloses(s: string)
    ensures Delimited(s, 0, false).BadOpening? <==> s != [] && Closes(s[0])
    ensures !Delimited(s, 0, false).NoOpening?
  {
  }
}
