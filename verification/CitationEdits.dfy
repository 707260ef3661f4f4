/** The fixer's edits as a change of pieces, and fence blanking that commutes with
    them: detecting on the blanked copy and editing the original are consistent. */
module CitationEdits {
  import opened PyText
  import opened CitationText
  import opened CitationGate
  import opened CitationFacts
  import opened Splice

  // ------------------------------------------------------------- pieces and offsets

  lemma {:induction false} OffsetTail(pieces: seq<string>, k: nat)
    requires k < |pieces|
    ensures var text := Join(pieces, TICK);
            && Offset(pieces, k) + |pieces[k]| <= |text|
            && text[Offset(pieces, k)..] == Join(pieces[k..], TICK)
            && (k > 0 ==> Offset(pieces, k) > 0 && text[Offset(pieces, k) - 1] == TICK)
  {
    var text := Join(pieces, TICK);
    if k == 0 {
      assert pieces[0..] == pieces;
    } else {
      OffsetTail(pieces, k - 1);
      var o := Offset(pieces, k - 1);
      var tail := pieces[k - 1..];
      assert tail[1..] == pieces[k..];
      assert text[o..] == pieces[k - 1] + [TICK] + Join(pieces[k..], TICK);
      assert text[o..][|pieces[k - 1]|] == TICK;
      assert text[o..][|pieces[k - 1]| + 1..] == Join(pieces[k..], TICK);
    }
    assert Join(pieces[k..], TICK)[..|pieces[k]|] == pieces[k];
  }

  lemma OffsetSlices(pieces: seq<string>, k: nat, last: nat)
    requires 1 <= k && k + 1 < |pieces| && last + 1 <= Offset(pieces, k)
    ensures var text := Join(pieces, TICK);
            && Offset(pieces, k) + |pieces[k]| + 1 == Offset(pieces, k + 1) <= |text|
            && text[last..Offset(pieces, k + 1) - 1] == text[last..Offset(pieces, k) - 1] + [TICK] + pieces[k]
            && text[Offset(pieces, k) - 1..Offset(pieces, k + 1)] == [TICK] + pieces[k] + [TICK]
  {
    var text, p := Join(pieces, TICK), pieces[k];
    OffsetTail(pieces, k);
    OffsetTail(pieces, k + 1);
    var o := Offset(pieces, k);
    assert pieces[k..][0] == p && pieces[k..][1..] == pieces[k + 1..];
    HeadOf(text, o, p, [TICK] + Join(pieces[k + 1..], TICK));
    SliceTicked(text, last, o, p);
  }

  lemma HeadOf(text: string, o: nat, p: string, rest: string)
    requires o <= |text| && text[o..] == p + rest
    ensures o + |p| <= |text| && text[o..o + |p|] == p
  {
    assert text[o..o + |p|] == text[o..][..|p|];
  }

  lemma SliceTicked(text: string, last: nat, o: nat, p: string)
    requires last + 1 <= o && o + |p| + 1 <= |text|
    requires text[o - 1] == TICK && text[o..o + |p|] == p && text[o + |p|] == TICK
    ensures text[last..o + |p|] == text[last..o - 1] + [TICK] + p
    ensures text[o - 1..o + |p| + 1] == [TICK] + p + [TICK]
  {
    Halves(text, last, o, o + |p|);
    Halves(text, last, o - 1, o);
    Halves(text, o - 1, o, o + |p| + 1);
    Halves(text, o, o + |p|, o + |p| + 1);
    assert text[o - 1..o] == [TICK];
    assert text[o + |p|..o + |p| + 1] == [TICK];
  }

  /** Piece `k` after the fix. */
  function FixedAt(news: seq<Option<string>>, pieces: seq<string>, k: nat): string
    requires k < |news| == |pieces|
  {
    if news[k].Some? then news[k].value else pieces[k]
  }

  /** The pieces from `k` on after the fix. */
  function FixedFrom(flags: seq<bool>, news: seq<Option<string>>, pieces: seq<string>, k: nat): (out: seq<string>)
    requires 1 <= k <= |pieces| == |news| == |flags|
    ensures |out| == |pieces| - k
    decreases |pieces| - k
  {
    if k + 1 >= |pieces| then pieces[k..]
    else if flags[k] then [FixedAt(news, pieces, k), pieces[k + 1]] + FixedFrom(flags, news, pieces, k + 2)
    else [pieces[k]] + FixedFrom(flags, news, pieces, k + 1)
  }

  function FixedPieces(flags: seq<bool>, news: seq<Option<string>>, pieces: seq<string>): (out: seq<string>)
    requires 1 <= |pieces| == |news| == |flags|
    ensures |out| == |pieces|
  {
    [pieces[0]] + FixedFrom(flags, news, pieces, 1)
  }

  lemma {:induction false} FixedFromAt(flags: seq<bool>, news: seq<Option<string>>, pieces: seq<string>, k: nat, i: nat)
    requires 1 <= k <= i < |pieces| == |news| == |flags|
    ensures i in Scan(flags, k) ==> FixedFrom(flags, news, pieces, k)[i - k] == FixedAt(news, pieces, i)
    ensures i !in Scan(flags, k) ==> FixedFrom(flags, news, pieces, k)[i - k] == pieces[i]
    decreases |pieces| - k
  {
    if k + 1 < |pieces| {
      if flags[k] {
        if i >= k + 2 { FixedFromAt(flags, news, pieces, k + 2, i); }
        FixedPair(flags, news, pieces, k, i);
      } else {
        if i > k { FixedFromAt(flags, news, pieces, k + 1, i); }
        FixedPlain(flags, news, pieces, k, i);
      }
    } else {
      FixedLast(flags, news, pieces, k);
    }
  }

  lemma FixedLast(flags: seq<bool>, news: seq<Option<string>>, pieces: seq<string>, k: nat)
    requires 1 <= k && k + 1 == |pieces| == |news| == |flags|
    ensures FixedFrom(flags, news, pieces, k) == [pieces[k]] && Scan(flags, k) == []
  {
  }

  lemma FixedPlain(flags: seq<bool>, news: seq<Option<string>>, pieces: seq<string>, k: nat, i: nat)
    requires 1 <= k <= i < |pieces| == |news| == |flags| && k + 1 < |pieces| && !flags[k]
    ensures FixedFrom(flags, news, pieces, k)[i - k] == if i == k then pieces[k] else FixedFrom(flags, news, pieces, k + 1)[i - k - 1]
    ensures i in Scan(flags, k) <==> i > k && i in Scan(flags, k + 1)
  {
    assert Scan(flags, k) == Scan(flags, k + 1);
  }

  lemma FixedPair(flags: seq<bool>, news: seq<Option<string>>, pieces: seq<string>, k: nat, i: nat)
    requires 1 <= k <= i < |pieces| == |news| == |flags| && k + 1 < |pieces| && flags[k]
    ensures FixedFrom(flags, news, pieces, k)[i - k]
            == if i == k then FixedAt(news, pieces, k) else if i == k + 1 then pieces[k + 1] else FixedFrom(flags, news, pieces, k + 2)[i - k - 2]
    ensures i in Scan(flags, k) <==> i == k || i in Scan(flags, k + 2)
    ensures i < k + 2 ==> i !in Scan(flags, k + 2)
  {
    FixedHead(flags, news, pieces, k);
    ScanHead(flags, k, i);
    TwoAhead(FixedAt(news, pieces, k), pieces[k + 1], FixedFrom(flags, news, pieces, k + 2), i - k);
  }

  lemma TwoAhead<T>(a: T, b: T, rest: seq<T>, j: nat)
    requires j < |rest| + 2
    ensures ([a] + ([b] + rest))[j] == if j == 0 then a else if j == 1 then b else rest[j - 2]
  {
  }

  lemma ScanHead(flags: seq<bool>, k: nat, i: nat)
    requires k + 1 < |flags| && flags[k] && k <= i
    ensures i in Scan(flags, k) <==> i == k || i in Scan(flags, k + 2)
    ensures i < k + 2 ==> i !in Scan(flags, k + 2)
  {
    var ks := Scan(flags, k + 2);
    assert Scan(flags, k) == [k] + ks;
  }

  lemma JoinCons(p: string, rest: seq<string>)
    requires rest != []
    ensures Join([p] + rest, TICK) == p + [TICK] + Join(rest, TICK)
  {
    assert ([p] + rest)[1..] == rest;
  }

  /** `before`, a backtick, then the fixed pieces from `k` on. */
  ghost predicate SplicesTo(flags: seq<bool>, news: seq<Option<string>>, pieces: seq<string>, k: nat, last: nat, before: string, after: string)
    requires 1 <= k && |news| == |pieces| == |flags|
  {
    var text, edits := Join(pieces, TICK), EditsOf(news, pieces, Scan(flags, k));
    Ordered(edits, last, |text|) && Splice.Splice(text, last, edits) == before + after
  }

  lemma Regroup(before: string, p: string, rest: seq<string>)
    requires rest != []
    ensures (before + [TICK] + p) + ([TICK] + Join(rest, TICK)) == before + ([TICK] + Join([p] + rest, TICK))
  {
    JoinCons(p, rest);
  }

  /** The splice of the edits from piece `k` on is the text before it, a backtick, and
      the fixed pieces. */
  ghost predicate Spliced(flags: seq<bool>, news: seq<Option<string>>, pieces: seq<string>, k: nat, last: nat) {
    && 1 <= k < |pieces| == |news| == |flags| && last + 1 <= Offset(pieces, k) <= |Join(pieces, TICK)|
    && SplicesTo(flags, news, pieces, k, last, Join(pieces, TICK)[last..Offset(pieces, k) - 1], [TICK] + Join(FixedFrom(flags, news, pieces, k), TICK))
  }

  /** The same from the piece after a citation, `last` at most its closing backtick. */
  ghost predicate SplicedAfter(flags: seq<bool>, news: seq<Option<string>>, pieces: seq<string>, k: nat, last: nat) {
    && 1 <= k && k + 1 < |pieces| == |news| == |flags| && last <= Offset(pieces, k + 1) <= |Join(pieces, TICK)|
    && SplicesTo(flags, news, pieces, k + 2, last, Join(pieces, TICK)[last..Offset(pieces, k + 1)],
                 Join([pieces[k + 1]] + FixedFrom(flags, news, pieces, k + 2), TICK))
  }

  lemma SpliceEnd(flags: seq<bool>, news: seq<Option<string>>, pieces: seq<string>, k: nat, last: nat)
    requires 1 <= k && k + 1 == |pieces| == |news| == |flags| && last + 1 <= Offset(pieces, k)
    ensures Spliced(flags, news, pieces, k, last)
  {
    var text, o := Join(pieces, TICK), Offset(pieces, k);
    OffsetTail(pieces, k);
    assert text[last..] == text[last..o - 1] + ([TICK] + text[o..]);
  }

  lemma SplicePlain(flags: seq<bool>, news: seq<Option<string>>, pieces: seq<string>, k: nat, last: nat)
    requires 1 <= k && !(k < |flags| && flags[k]) && Spliced(flags, news, pieces, k + 1, last) && last + 1 <= Offset(pieces, k)
    ensures Spliced(flags, news, pieces, k, last)
  {
    OffsetTail(pieces, k);
    OffsetSlices(pieces, k, last);
    SplicesPlain(flags, news, pieces, k, last, Join(pieces, TICK)[last..Offset(pieces, k) - 1]);
  }

  lemma SplicesPlain(flags: seq<bool>, news: seq<Option<string>>, pieces: seq<string>, k: nat, last: nat, before: string)
    requires 1 <= k && k + 1 < |pieces| == |news| == |flags| && !flags[k]
    requires SplicesTo(flags, news, pieces, k + 1, last, before + [TICK] + pieces[k], [TICK] + Join(FixedFrom(flags, news, pieces, k + 1), TICK))
    ensures SplicesTo(flags, news, pieces, k, last, before, [TICK] + Join(FixedFrom(flags, news, pieces, k), TICK))
  {
    Regroup(before, pieces[k], FixedFrom(flags, news, pieces, k + 1));
  }

  lemma SpliceAfterEnd(flags: seq<bool>, news: seq<Option<string>>, pieces: seq<string>, k: nat, last: nat)
    requires 1 <= k && k + 2 == |pieces| == |news| == |flags| && last <= Offset(pieces, k + 1)
    ensures SplicedAfter(flags, news, pieces, k, last)
  {
    var text, o := Join(pieces, TICK), Offset(pieces, k + 1);
    OffsetTail(pieces, k + 1);
    assert [pieces[k + 1]] + [] == pieces[k + 1..];
    assert text[last..] == text[last..o] + text[o..];
  }

  lemma SpliceAfterPiece(flags: seq<bool>, news: seq<Option<string>>, pieces: seq<string>, k: nat, last: nat)
    requires 1 <= k && Spliced(flags, news, pieces, k + 2, last) && last <= Offset(pieces, k + 1)
    ensures SplicedAfter(flags, news, pieces, k, last)
  {
    var text, o, p := Join(pieces, TICK), Offset(pieces, k + 1), pieces[k + 1];
    var rest := FixedFrom(flags, news, pieces, k + 2);
    PieceUpto(pieces, k + 1, last);
    AfterSplice(text, last, text[last..o], text[last..o + |p|], p, rest, EditsOf(news, pieces, Scan(flags, k + 2)));
  }

  lemma PieceUpto(pieces: seq<string>, k: nat, last: nat)
    requires k < |pieces| && last <= Offset(pieces, k)
    ensures var text, o := Join(pieces, TICK), Offset(pieces, k);
            o + |pieces[k]| <= |text| && text[last..o + |pieces[k]|] == text[last..o] + pieces[k]
  {
    OffsetTail(pieces, k);
    PieceUptoIn(Join(pieces, TICK), pieces[k..], last, Offset(pieces, k));
  }

  lemma PieceUptoIn(text: string, tail: seq<string>, last: nat, o: nat)
    requires last <= o <= |text| && tail != [] && text[o..] == Join(tail, TICK)
    ensures o + |tail[0]| <= |text| && text[last..o + |tail[0]|] == text[last..o] + tail[0]
  {
    FirstOfJoin(tail);
    PrefixUpto(text, last, o, tail[0]);
  }

  lemma PrefixUpto(text: string, last: nat, o: nat, p: string)
    requires last <= o <= |text| && p <= text[o..]
    ensures o + |p| <= |text| && text[last..o + |p|] == text[last..o] + p
  {
    assert text[o..o + |p|] == text[o..][..|p|];
    Halves(text, last, o, o + |p|);
  }

  lemma FirstOfJoin(pieces: seq<string>)
    requires pieces != []
    ensures pieces[0] <= Join(pieces, TICK)
  {
  }

  lemma AfterSplice(text: string, last: nat, before: string, upto: string, p: string, rest: seq<string>, edits: seq<Edit>)
    requires rest != [] && Ordered(edits, last, |text|) && upto == before + p
    requires Splice.Splice(text, last, edits) == upto + ([TICK] + Join(rest, TICK))
    ensures Splice.Splice(text, last, edits) == before + Join([p] + rest, TICK)
  {
    JoinCons(p, rest);
    Assoc(before, p, [TICK] + Join(rest, TICK));
    Assoc(p, [TICK], Join(rest, TICK));
  }

  lemma SpliceRewritten(flags: seq<bool>, news: seq<Option<string>>, pieces: seq<string>, k: nat, last: nat)
    requires 1 <= k && k + 1 < |pieces| == |news| == |flags| && flags[k] && news[k].Some? && last + 1 <= Offset(pieces, k)
    requires SplicedAfter(flags, news, pieces, k, Offset(pieces, k + 1))
    ensures Spliced(flags, news, pieces, k, last)
  {
    OffsetTail(pieces, k);
    OffsetSlices(pieces, k, last);
    var text, next := Join(pieces, TICK), Offset(pieces, k + 1);
    assert text[next..next] == [];
    SplicesRewritten(flags, news, pieces, k, last, text[last..Offset(pieces, k) - 1]);
  }

  lemma SplicesRewritten(flags: seq<bool>, news: seq<Option<string>>, pieces: seq<string>, k: nat, last: nat, before: string)
    requires 1 <= k && k + 1 < |pieces| == |news| == |flags| && flags[k] && news[k].Some?
    requires last + 1 <= Offset(pieces, k) && Offset(pieces, k + 1) <= |Join(pieces, TICK)|
    requires before == Join(pieces, TICK)[last..Offset(pieces, k) - 1]
    requires SplicesTo(flags, news, pieces, k + 2, Offset(pieces, k + 1), [], Join([pieces[k + 1]] + FixedFrom(flags, news, pieces, k + 2), TICK))
    ensures SplicesTo(flags, news, pieces, k, last, before, [TICK] + Join(FixedFrom(flags, news, pieces, k), TICK))
  {
    var x := Edit(Offset(pieces, k) - 1, Offset(pieces, k + 1), [TICK] + news[k].value + [TICK]);
    var after := EditsOf(news, pieces, Scan(flags, k + 2));
    var rest := [pieces[k + 1]] + FixedFrom(flags, news, pieces, k + 2);
    OffsetGrows(pieces, k);
    assert [] + Join(rest, TICK) == Join(rest, TICK);
    RewrittenSplice(Join(pieces, TICK), last, before, x, news[k].value, rest, after);
    SplicesBack(flags, news, pieces, k, last, before, x, after, rest);
  }

  lemma OffsetGrows(pieces: seq<string>, k: nat)
    requires k + 1 < |pieces|
    ensures Offset(pieces, k) <= Offset(pieces, k + 1)
  {
  }

  lemma SplicesBack(flags: seq<bool>, news: seq<Option<string>>, pieces: seq<string>, k: nat, last: nat, before: string, x: Edit, after: seq<Edit>, rest: seq<string>)
    requires 1 <= k && k + 1 < |pieces| == |news| == |flags| && flags[k] && news[k].Some?
    requires x == Edit(Offset(pieces, k) - 1, Offset(pieces, k + 1), [TICK] + news[k].value + [TICK])
    requires after == EditsOf(news, pieces, Scan(flags, k + 2)) && rest == [pieces[k + 1]] + FixedFrom(flags, news, pieces, k + 2)
    requires Ordered([x] + after, last, |Join(pieces, TICK)|)
    requires Splice.Splice(Join(pieces, TICK), last, [x] + after) == before + ([TICK] + Join([news[k].value] + rest, TICK))
    ensures SplicesTo(flags, news, pieces, k, last, before, [TICK] + Join(FixedFrom(flags, news, pieces, k), TICK))
  {
    EditsRewritten(flags, news, pieces, k);
    FixedRewritten(flags, news, pieces, k);
  }

  lemma FixedRewritten(flags: seq<bool>, news: seq<Option<string>>, pieces: seq<string>, k: nat)
    requires 1 <= k && k + 1 < |pieces| == |news| == |flags| && flags[k] && news[k].Some?
    ensures FixedFrom(flags, news, pieces, k) == [news[k].value] + ([pieces[k + 1]] + FixedFrom(flags, news, pieces, k + 2))
  {
    FixedHead(flags, news, pieces, k);
  }

  lemma RewrittenSplice(text: string, last: nat, before: string, x: Edit, now: string, rest: seq<string>, after: seq<Edit>)
    requires last <= x.s <= x.e <= |text| && Ordered(after, x.e, |text|)
    requires before == text[last..x.s] && x.repl == [TICK] + now + [TICK] && rest != []
    requires Splice.Splice(text, x.e, after) == Join(rest, TICK)
    ensures Ordered([x] + after, last, |text|)
    ensures Splice.Splice(text, last, [x] + after) == before + ([TICK] + Join([now] + rest, TICK))
  {
    SpliceHead(text, last, x, after);
    JoinCons(now, rest);
    Regroup3(before, now, Join(rest, TICK));
  }

  lemma EditsRewritten(flags: seq<bool>, news: seq<Option<string>>, pieces: seq<string>, k: nat)
    requires 1 <= k && k + 1 < |pieces| == |news| == |flags| && flags[k] && news[k].Some?
    ensures EditsOf(news, pieces, Scan(flags, k))
         == [Edit(Offset(pieces, k) - 1, Offset(pieces, k + 1), [TICK] + news[k].value + [TICK])] + EditsOf(news, pieces, Scan(flags, k + 2))
  {
    var ks := Scan(flags, k + 2);
    assert Scan(flags, k) == [k] + ks && ([k] + ks)[1..] == ks;
  }

  lemma SpliceKept(flags: seq<bool>, news: seq<Option<string>>, pieces: seq<string>, k: nat, last: nat)
    requires 1 <= k && k + 1 < |pieces| == |news| == |flags| && flags[k] && news[k].None? && last + 1 <= Offset(pieces, k)
    requires SplicedAfter(flags, news, pieces, k, last)
    ensures Spliced(flags, news, pieces, k, last)
  {
    OffsetTail(pieces, k);
    KeptUpto(pieces, k, last);
    SplicesKept(flags, news, pieces, k, last, Join(pieces, TICK)[last..Offset(pieces, k) - 1], Join(pieces, TICK)[last..Offset(pieces, k + 1)]);
  }

  lemma SplicesKept(flags: seq<bool>, news: seq<Option<string>>, pieces: seq<string>, k: nat, last: nat, before: string, upto: string)
    requires 1 <= k && k + 1 < |pieces| == |news| == |flags| && flags[k] && news[k].None?
    requires upto == before + [TICK] + pieces[k] + [TICK]
    requires SplicesTo(flags, news, pieces, k + 2, last, upto, Join([pieces[k + 1]] + FixedFrom(flags, news, pieces, k + 2), TICK))
    ensures SplicesTo(flags, news, pieces, k, last, before, [TICK] + Join(FixedFrom(flags, news, pieces, k), TICK))
  {
    EditsKept(flags, news, pieces, k);
    var rest := [pieces[k + 1]] + FixedFrom(flags, news, pieces, k + 2);
    FixedHead(flags, news, pieces, k);
    KeptSplice(Join(pieces, TICK), last, before, upto, pieces[k], rest, FixedFrom(flags, news, pieces, k), EditsOf(news, pieces, Scan(flags, k + 2)));
  }

  lemma KeptSplice(text: string, last: nat, before: string, upto: string, p: string, rest: seq<string>, fixed: seq<string>, edits: seq<Edit>)
    requires rest != [] && Ordered(edits, last, |text|) && fixed == [p] + rest
    requires upto == before + [TICK] + p + [TICK]
    requires Splice.Splice(text, last, edits) == upto + Join(rest, TICK)
    ensures Splice.Splice(text, last, edits) == before + ([TICK] + Join(fixed, TICK))
  {
    KeptText(before, p, rest, upto, Splice.Splice(text, last, edits));
  }

  lemma EditsKept(flags: seq<bool>, news: seq<Option<string>>, pieces: seq<string>, k: nat)
    requires 1 <= k && k + 1 < |pieces| == |news| == |flags| && flags[k] && news[k].None?
    ensures EditsOf(news, pieces, Scan(flags, k)) == EditsOf(news, pieces, Scan(flags, k + 2))
  {
    var ks := Scan(flags, k + 2);
    assert Scan(flags, k) == [k] + ks && ([k] + ks)[1..] == ks;
  }

  lemma KeptUpto(pieces: seq<string>, k: nat, last: nat)
    requires 1 <= k && k + 1 < |pieces| && last + 1 <= Offset(pieces, k)
    ensures var text := Join(pieces, TICK);
            && Offset(pieces, k) <= Offset(pieces, k + 1) <= |text|
            && text[last..Offset(pieces, k + 1)] == text[last..Offset(pieces, k) - 1] + [TICK] + pieces[k] + [TICK]
  {
    OffsetTail(pieces, k + 1);
    OffsetSlices(pieces, k, last);
    TickedHalves(Join(pieces, TICK), last, Offset(pieces, k + 1));
  }

  lemma KeptText(before: string, p: string, rest: seq<string>, upto: string, all: string)
    requires rest != [] && upto == before + [TICK] + p + [TICK] && all == upto + Join(rest, TICK)
    ensures all == before + ([TICK] + Join([p] + rest, TICK))
  {
    JoinCons(p, rest);
    Regroup3(before, p, Join(rest, TICK));
  }

  lemma TickedHalves(text: string, last: nat, next: nat)
    requires last < next <= |text| && text[next - 1] == TICK
    ensures text[last..next] == text[last..next - 1] + [TICK]
  {
  }

  lemma FixedHead(flags: seq<bool>, news: seq<Option<string>>, pieces: seq<string>, k: nat)
    requires 1 <= k && k + 1 < |pieces| == |news| == |flags| && flags[k]
    ensures FixedFrom(flags, news, pieces, k) == [FixedAt(news, pieces, k)] + ([pieces[k + 1]] + FixedFrom(flags, news, pieces, k + 2))
  {
  }

  /** The splice of the fixer's edits is the join of the fixed pieces. */
  lemma {:induction false} EditsSplice(flags: seq<bool>, news: seq<Option<string>>, pieces: seq<string>, k: nat, last: nat)
    requires 1 <= k < |pieces| == |news| == |flags| && last + 1 <= Offset(pieces, k)
    ensures Spliced(flags, news, pieces, k, last)
    decreases |pieces| - k
  {
    OffsetTail(pieces, k);
    if k + 1 == |pieces| {
      SpliceEnd(flags, news, pieces, k, last);
    } else if !flags[k] {
      EditsSplice(flags, news, pieces, k + 1, last);
      SplicePlain(flags, news, pieces, k, last);
    } else {
      var from := if news[k].Some? then Offset(pieces, k + 1) else last;
      if k + 2 == |pieces| {
        SpliceAfterEnd(flags, news, pieces, k, from);
      } else {
        EditsSplice(flags, news, pieces, k + 2, from);
        SpliceAfterPiece(flags, news, pieces, k, from);
      }
      if news[k].Some? {
        SpliceRewritten(flags, news, pieces, k, last);
      } else {
        SpliceKept(flags, news, pieces, k, last);
      }
    }
  }

  lemma Regroup3(before: string, p: string, tail: string)
    ensures before + ([TICK] + p + [TICK]) + tail == before + ([TICK] + (p + [TICK] + tail))
    ensures before + [TICK] + p + [TICK] + tail == before + ([TICK] + (p + [TICK] + tail))
  {
  }
}
