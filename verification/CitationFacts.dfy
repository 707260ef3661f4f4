/** Facts the citation proofs share: the hit scanner is exact, a re-anchored range
    holds its anchor, a printed citation reads back, and the two halves agree. */
module CitationFacts {
  import opened PyText
  import opened CitationText
  import opened CitationGate

  // ------------------------------------------------------------------- the hits

  ghost predicate Increasing(xs: seq<nat>) { forall i, j :: 0 <= i < j < |xs| ==> xs[i] < xs[j] }

  lemma AllEqual(xs: seq<nat>, x: nat)
    requires Increasing(xs) && x in xs && forall y :: y in xs ==> y == x
    ensures xs == [x]
  {
    if |xs| >= 2 {
      TwoApart(xs);
      assert false;
    }
  }

  lemma TwoApart(xs: seq<nat>)
    requires Increasing(xs) && |xs| >= 2
    ensures xs[0] < xs[1] && xs[0] in xs && xs[1] in xs
  {
  }

  lemma LineAtMonotone(body: string, p: nat, q: nat)
    requires p <= q <= |body|
    ensures LineAt(body, p) <= LineAt(body, q)
  {
    assert body[..q] == body[..p] + body[p..q];
    CountAppend(body[..p], body[p..q], '\n');
  }

  ghost predicate HitLine(body: string, needle: string, from: nat, h: nat) {
    exists p :: from <= p <= |body| && Occurs(body, needle, p) && LineAt(body, p) == h
  }

  lemma {:induction false} HitsFromExact(body: string, needle: string, at: Option<nat>, hits: seq<nat>)
    requires at.Some? ==> Occurs(body, needle, at.value)
    requires Increasing(hits)
    requires at.Some? && hits != [] ==> hits[|hits| - 1] <= LineAt(body, at.value)
    ensures var r := HitsFrom(body, needle, at, hits);
            Increasing(r) && forall h :: h in r <==> h in hits || (at.Some? && HitLine(body, needle, at.value, h))
    decreases if at.Some? then |body| + 1 - at.value else 0
  {
    if at.Some? {
      var p := at.value;
      var line := LineAt(body, p);
      var next := Find(body, needle, p + 1);
      var hits' := if hits == [] || hits[|hits| - 1] != line then hits + [line] else hits;
      if next.Some? { LineAtMonotone(body, p, next.value); }
      HitsFromExact(body, needle, next, hits');
      forall h ensures HitLine(body, needle, p, h) <==> h == line || (next.Some? && HitLine(body, needle, next.value, h)) {
        HitOrLater(body, needle, p, h);
      }
    }
  }

  lemma HitOrLater(body: string, needle: string, p: nat, h: nat)
    requires Occurs(body, needle, p)
    ensures var next := Find(body, needle, p + 1);
            HitLine(body, needle, p, h) <==> h == LineAt(body, p) || (next.Some? && HitLine(body, needle, next.value, h))
  {
    var next := Find(body, needle, p + 1);
    if HitLine(body, needle, p, h) {
      var q :| p <= q <= |body| && Occurs(body, needle, q) && LineAt(body, q) == h;
      assert q == p || (next.Some? && next.value <= q);
    }
  }

  /** The scanner lists, in increasing order and once each, exactly the lines on which
      some occurrence of the needle starts. */
  lemma HitsExact(body: string, needle: string)
    ensures Increasing(Hits(body, needle))
    ensures forall h :: h in Hits(body, needle) <==> HitLine(body, needle, 0, h)
  {
    var first := Find(body, needle, 0);
    HitsFromExact(body, needle, first, []);
    forall h ensures HitLine(body, needle, 0, h) <==> first.Some? && HitLine(body, needle, first.value, h) {
      if HitLine(body, needle, 0, h) {
        var q :| 0 <= q <= |body| && Occurs(body, needle, q) && LineAt(body, q) == h;
        assert first.Some? && first.value <= q;
      }
    }
  }

  // ------------------------------------------------------- a range around a hit

  lemma {:induction false} FileLinesFree(s: string, line: string)
    requires '\n' !in line
    ensures Free(SplitLinesFrom(s, line), '\n')
    decreases s
  {
    if s != [] {
      if s[0] == '\r' && |s| > 1 && s[1] == '\n' {
        FileLinesFree(s[2..], []);
      } else if LineBreak(s[0]) {
        FileLinesFree(s[1..], []);
      } else {
        FileLinesFree(s[1..], line + [s[0]]);
      }
    }
  }

  lemma JoinHead(x: string, p: string, rest: seq<string>, c: char)
    ensures Join([x + p] + rest, c) == x + Join([p] + rest, c)
  {
    assert ([x + p] + rest)[1..] == rest && ([p] + rest)[1..] == rest;
    if rest != [] { assert x + p + [c] + Join(rest, c) == x + (p + [c] + Join(rest, c)); }
  }

  /** Dropping as many lines as `a` ends leaves the last, unfinished line of `a` and all of `b`. */
  lemma DropLines(a: string, b: string)
    ensures var n := Count(a, '\n');
            var ls := SplitOn(a + b, '\n');
            n < |ls| && |SplitOn(a, '\n')| == n + 1 && '\n' !in SplitOn(a, '\n')[n]
            && Join(ls[n..], '\n') == SplitOn(a, '\n')[n] + b
  {
    var sa, sb := SplitOn(a, '\n'), SplitOn(b, '\n');
    JoinSplit(a, '\n');
    JoinSplit(b, '\n');
    SplitAppend(a, b, '\n');
    var n := Count(a, '\n');
    GlueTail(sa, sb);
    JoinHead(sa[n], sb[0], sb[1..], '\n');
    assert [sb[0]] + sb[1..] == sb;
  }

  lemma GlueTail(sa: seq<string>, sb: seq<string>)
    requires sa != [] && sb != []
    ensures |Glue(sa, sb)| >= |sa| && Glue(sa, sb)[|sa| - 1..] == [sa[|sa| - 1] + sb[0]] + sb[1..]
  {
  }

  lemma GlueTake(sx: seq<string>, sy: seq<string>, k: nat)
    requires sx != [] && 1 <= k <= |sy|
    ensures |Glue(sx, sy)| >= |sx| + k - 1 && Glue(sx, sy)[..|sx| + k - 1] == Glue(sx, sy[..k])
  {
  }

  lemma JoinGlue(x: string, t: seq<string>)
    requires t != [] && Free(t, '\n')
    ensures Join(Glue(SplitOn(x, '\n'), t), '\n') == x + Join(t, '\n')
  {
    SplitJoin(t, '\n');
    SplitAppend(x, Join(t, '\n'), '\n');
    JoinSplit(x + Join(t, '\n'), '\n');
  }

  /** The first `w + 1` lines of `x + y` start with `x` when `x` ends at most `w` lines. */
  lemma TakeLines(x: string, y: string, w: nat)
    requires Count(x, '\n') <= w < |SplitOn(x + y, '\n')|
    ensures x <= Join(SplitOn(x + y, '\n')[..w + 1], '\n')
  {
    var sx, sy := SplitOn(x, '\n'), SplitOn(y, '\n');
    JoinSplit(x, '\n');
    JoinSplit(y, '\n');
    SplitAppend(x, y, '\n');
    var k := w + 2 - |sx|;
    GlueTake(sx, sy, k);
    JoinGlue(x, sy[..k]);
  }

  lemma PrefixHolds(s: string, a: string, needle: string)
    requires a + needle <= s
    ensures Holds(s, needle)
  {
    assert s[|a|..|a| + |needle|] == needle;
    assert Occurs(s, needle, |a|);
  }

  /** `ls[n..]` are the lines of `last + needle + y`, and `last` ends no line. */
  lemma TailHolds(ls: seq<string>, n: nat, last: string, needle: string, y: string, w: nat)
    requires n < |ls| && Free(ls[n..], '\n') && Join(ls[n..], '\n') == last + (needle + y)
    requires '\n' !in last && Count(needle, '\n') <= w && n + w < |ls|
    ensures Holds(Join(ls[n..n + w + 1], '\n'), needle)
  {
    Assoc(last, needle, y);
    CountZero(last, '\n');
    CountAppend(last, needle, '\n');
    SplitJoin(ls[n..], '\n');
    TakeLines(last + needle, y, w);
    SliceOfTail(ls, n, w + 1);
    PrefixHolds(Join(ls[n..n + w + 1], '\n'), last, needle);
  }

  lemma RangeHolds(a: string, needle: string, y: string, w: nat)
    requires Count(needle, '\n') <= w && Count(a, '\n') + w < |SplitOn(a + (needle + y), '\n')|
    ensures Holds(Join(SplitOn(a + (needle + y), '\n')[Count(a, '\n')..Count(a, '\n') + w + 1], '\n'), needle)
  {
    var n, ls := Count(a, '\n'), SplitOn(a + (needle + y), '\n');
    DropLines(a, needle + y);
    JoinSplit(a + (needle + y), '\n');
    TailFree(ls, n);
    TailHolds(ls, n, SplitOn(a, '\n')[n], needle, y, w);
  }

  lemma TailFree(ls: seq<string>, n: nat)
    requires Free(ls, '\n') && n <= |ls|
    ensures Free(ls[n..], '\n')
  {
  }

  lemma SliceOfTail<T>(a: seq<T>, n: nat, w: nat)
    requires n + w <= |a|
    ensures a[n..][..w] == a[n..n + w]
  {
  }

  lemma OccursSplit(body: string, needle: string, p: nat)
    requires Occurs(body, needle, p)
    ensures body == body[..p] + (needle + body[p + |needle|..])
  {
  }

  lemma RangeSlice(lines: seq<string>, hit: nat, w: nat, needle: string)
    requires 1 <= hit && hit + w <= |lines| && Holds(Join(lines[hit - 1..hit + w], '\n'), needle)
    ensures InRange(lines, hit, hit + w, needle)
  {
    assert Slice(lines, hit - 1, hit + w) == lines[hit - 1..hit + w];
  }

  lemma HitWitness(body: string, needle: string, hit: nat) returns (p: nat)
    requires hit in Hits(body, needle)
    ensures Occurs(body, needle, p) && hit == Count(body[..p], '\n') + 1
  {
    HitsExact(body, needle);
    p :| 0 <= p <= |body| && Occurs(body, needle, p) && LineAt(body, p) == hit;
  }

  lemma OccurrenceHolds(lines: seq<string>, needle: string, hit: nat, w: nat, p: nat)
    requires lines != [] && Free(lines, '\n')
    requires Occurs(Join(lines, '\n'), needle, p) && hit == Count(Join(lines, '\n')[..p], '\n') + 1
    requires Count(needle, '\n') <= w && hit + w <= |lines|
    ensures InRange(lines, hit, hit + w, needle)
  {
    var body := Join(lines, '\n');
    var a, y := body[..p], body[p + |needle|..];
    OccursSplit(body, needle, p);
    SplitJoin(lines, '\n');
    assert SplitOn(a + (needle + y), '\n') == lines;
    RangeHolds(a, needle, y, w);
    RangeSlice(lines, hit, w, needle);
  }

  /** A range that starts on a hit and is wide enough for the needle's own line breaks
      holds the needle. */
  lemma HitHolds(lines: seq<string>, needle: string, hit: nat, w: nat)
    requires lines != [] && Free(lines, '\n')
    requires hit in Hits(Join(lines, '\n'), needle) && Count(needle, '\n') <= w && hit + w <= |lines|
    ensures InRange(lines, hit, hit + w, needle)
  {
    var p := HitWitness(Join(lines, '\n'), needle, hit);
    OccurrenceHolds(lines, needle, hit, w, p);
  }

  // ----------------------------------------------------------- printing citations

  lemma PathChars(path: string)
    requires PathOk(path)
    ensures path != [] && forall k :: 0 <= k < |path| ==> PathChar(path[k])
  {
    var i :| 0 <= i < |EXTENSIONS| && EndsWith(path, "." + EXTENSIONS[i]) && StemOk(path[..|path| - |"." + EXTENSIONS[i]|]);
    ExtensionChars(i);
    EndsInChars(path, "." + EXTENSIONS[i]);
  }

  lemma EndsInChars(path: string, ext: string)
    requires EndsWith(path, ext) && StemOk(path[..|path| - |ext|]) && forall k :: 0 <= k < |ext| ==> PathChar(ext[k])
    ensures path != [] && forall k :: 0 <= k < |path| ==> PathChar(path[k])
  {
    var stem := path[..|path| - |ext|];
    StemChars(stem);
    assert path == stem + ext;
  }

  lemma StemChars(s: string)
    requires StemOk(s)
    ensures s != [] && forall k :: 0 <= k < |s| ==> PathChar(s[k])
  {
    if s[0] == '.' {
      var t := s[1..];
      forall k | 0 <= k < |s| ensures PathChar(s[k]) { if k > 0 { assert s[k] == t[k - 1]; } }
    }
  }

  lemma ExtensionChars(i: nat)
    requires i < |EXTENSIONS|
    ensures forall k :: 0 <= k < |"." + EXTENSIONS[i]| ==> PathChar(("." + EXTENSIONS[i])[k])
  {
    assert LowerCase(EXTENSIONS[i]);
  }

  predicate LowerCase(s: string) { forall k :: 0 <= k < |s| ==> 'a' <= s[k] <= 'z' }

  lemma PathFree(path: string)
    requires PathOk(path)
    ensures ':' !in path && TICK !in path && '\n' !in path && path != [] && !IsSpace(path[0])
  {
    PathChars(path);
  }

  lemma NumeralFree(s: string)
    requires Numeral(s)
    ensures '-' !in s && ':' !in s && TICK !in s && '\n' !in s
  {
  }

  lemma NumbersOne(a: string)
    requires Numeral(a)
    ensures Numbers(a) == Some((a, None))
  {
    NumeralFree(a);
    SplitFree(a, '-');
  }

  lemma NumbersTwo(a: string, b: string)
    requires Numeral(a) && Numeral(b)
    ensures Numbers(a + "-" + b) == Some((a, Some(b)))
  {
    NumeralFree(a);
    NumeralFree(b);
    SplitHead(a, b, '-');
    SplitFree(b, '-');
  }

  lemma BodyParses(path: string, nums: string)
    requires PathOk(path) && Numbers(nums).Some? && ':' !in nums
    ensures Body(path + ":" + nums) == Some(Cite(path, Numbers(nums).value.0, Numbers(nums).value.1))
  {
    PathFree(path);
    SplitHead(path, nums, ':');
    SplitFree(nums, ':');
  }

  /** A printed rewrite reads back as the same path with the new range. */
  lemma PrintedReads(c: Cite, start: nat, end: nat)
    requires PathOk(c.path) && start <= end
    ensures var b := Body(Printed(c, start, end));
            b.Some? && b.value.path == c.path && Start(b.value) == start && End(b.value) == end
    ensures TICK !in Printed(c, start, end) && '\n' !in Printed(c, start, end)
    ensures c.path + ":" <= Printed(c, start, end)
  {
    ToIntToStr(start);
    ToIntToStr(end);
    if c.endText.Some? || end > start {
      RangeReads(c.path, ToStr(start), ToStr(end));
      Assoc(c.path + ":" + ToStr(start), "-", ToStr(end));
      Assoc(c.path + ":", ToStr(start), "-");
      Assoc(c.path + ":", ToStr(start) + "-", ToStr(end));
      assert Printed(c, start, end) == c.path + ":" + (ToStr(start) + "-" + ToStr(end));
    } else {
      LineReads(c.path, ToStr(start));
      assert Printed(c, start, end) == c.path + ":" + ToStr(start);
    }
  }

  lemma RangeReads(path: string, a: string, b: string)
    requires PathOk(path) && Numeral(a) && Numeral(b)
    ensures var t := path + ":" + (a + "-" + b);
            Body(t) == Some(Cite(path, a, Some(b))) && TICK !in t && '\n' !in t && path + ":" <= t
  {
    PathFree(path);
    NumeralFree(a);
    NumeralFree(b);
    NumbersTwo(a, b);
    BodyParses(path, a + "-" + b);
  }

  lemma LineReads(path: string, a: string)
    requires PathOk(path) && Numeral(a)
    ensures var t := path + ":" + a;
            Body(t) == Some(Cite(path, a, None)) && TICK !in t && '\n' !in t && path + ":" <= t
  {
    PathFree(path);
    NumeralFree(a);
    NumbersOne(a);
    BodyParses(path, a);
  }

  /** A citation's own text starts with its path and colon, and holds no backtick or newline. */
  lemma BodyShape(piece: string)
    requires Body(piece).Some?
    ensures var c := Body(piece).value; c.path + ":" <= piece && '\n' !in piece
  {
    var parts := SplitOn(piece, ':');
    JoinSplit(piece, ':');
    assert parts == [parts[0], parts[1]];
    assert Join(parts, ':') == parts[0] + [':'] + parts[1];
    PathFree(parts[0]);
    var nums := SplitOn(parts[1], '-');
    JoinSplit(parts[1], '-');
    if |nums| == 1 {
      NumeralFree(nums[0]);
    } else {
      NumeralFree(nums[0]);
      NumeralFree(nums[1]);
      assert Join(nums, '-') == nums[0] + ['-'] + nums[1];
    }
  }

  // -------------------------------------------------- the two halves case by case

  /** The verdicts of one run of the two halves on one citation. */
  ghost predicate Agree(g: Grade, r: Repair) {
    && (IsSkip(g) <==> r.LeftForeign? || r.LeftFolded?)
    && (IsSilentPass(g) ==> r.Kept? || r.Unanchored?)
    && (g.Drifted? ==> r.Rewrite? && r.mark == Unmarked && r.start == g.hit)
    && (r.NeedsHuman? ==> IsError(g))
    && (r.Rewrite? && r.mark != Unmarked ==> IsError(g))
  }

  ghost predicate Handled(g: Grade, r: Repair) {
    IsError(g) ==> r.NeedsHuman? || r.Rewrite? || (r.Unanchored? && (g.PastEnd? || g.NewUnanchored?))
  }

  lemma AnchoredAgree(lines: seq<string>, start: nat, end: nat, needle: string, mode: Mode)
    ensures var g, r := GradeAnchored(lines, start, end, needle, mode), RepairAnchored(lines, start, end, needle);
            Agree(g, r) && Handled(g, r)
  {
    var hits := Hits(Join(lines, '\n'), needle);
    if |hits| == 1 { assert Nearest(hits, start) == hits[0]; }
  }

  lemma BothAgree(ctx: Context, pieces: seq<string>, k: nat, mode: Mode)
    requires IsCite(pieces, k)
    ensures Agree(GradeOf(ctx, pieces, k, mode), RepairOf(ctx, pieces, k)) && Handled(GradeOf(ctx, pieces, k, mode), RepairOf(ctx, pieces, k))
  {
    var c := Body(pieces[k]).value;
    if !ForeignPath(c.path) && !Folded(ctx, c.path) && c.path in ctx.files && AnchorAt(pieces, k).Anchor? {
      AnchoredAgree(FileLines(ctx.files[c.path]), Start(c), End(c), Strip(AnchorAt(pieces, k).text), mode);
    }
  }

  /** Case by case: a silent pass is never rewritten; a drift note is rewritten without
      a mark; whatever the fixer leaves to a human, and whatever it rewrites with a mark,
      the checker refuses. */
  lemma HalvesAgree(ctx: Context, pieces: seq<string>, k: nat, mode: Mode)
    requires IsCite(pieces, k)
    ensures var g, r := GradeOf(ctx, pieces, k, mode), RepairOf(ctx, pieces, k);
            && (IsSkip(g) <==> r.LeftForeign? || r.LeftFolded?)
            && (IsSilentPass(g) ==> r.Kept? || r.Unanchored?)
            && (g.Drifted? ==> r.Rewrite? && r.mark == Unmarked && r.start == g.hit)
            && (r.NeedsHuman? ==> IsError(g))
            && (r.Rewrite? && r.mark != Unmarked ==> IsError(g))
  {
    BothAgree(ctx, pieces, k, mode);
  }

  /** And conversely: what the checker refuses, the fixer hands to a human or rewrites,
      save two gaps: an unanchored citation past the end of its file, and a new
      citation without an anchor, which the fixer only counts. */
  lemma ErrorsHandled(ctx: Context, pieces: seq<string>, k: nat, mode: Mode)
    requires IsCite(pieces, k)
    ensures var g, r := GradeOf(ctx, pieces, k, mode), RepairOf(ctx, pieces, k);
            IsError(g) ==> r.NeedsHuman? || r.Rewrite? || (r.Unanchored? && (g.PastEnd? || g.NewUnanchored?))
  {
    BothAgree(ctx, pieces, k, mode);
  }

  lemma NearestHit(body: string, needle: string, start: nat)
    requires Hits(body, needle) != []
    ensures var h := Nearest(Hits(body, needle), start);
            && h >= 1 && HitLine(body, needle, 0, h)
            && forall x :: HitLine(body, needle, 0, x) ==> Nearer(h, x, start)
  {
    HitsExact(body, needle);
    var p := HitWitness(body, needle, Nearest(Hits(body, needle), start));
  }

  lemma RepairShape(lines: seq<string>, start: nat, end: nat, needle: string)
    requires RepairAnchored(lines, start, end, needle).Rewrite?
    ensures var r, hits := RepairAnchored(lines, start, end, needle), Hits(Join(lines, '\n'), needle);
            && hits != [] && r.start == Nearest(hits, start) && r.start in hits
            && r.end == r.start + Width(start, end, needle) <= |lines|
  {
  }

  /** A rewrite points at the nearest hit, the later one on a tie, in bounds and with
      the cited width, widened to the anchor's own line breaks. */
  lemma RepairChoice(lines: seq<string>, start: nat, end: nat, needle: string)
    requires RepairAnchored(lines, start, end, needle).Rewrite?
    ensures var r := RepairAnchored(lines, start, end, needle);
            && 1 <= r.start <= r.end <= |lines|
            && r.end - r.start == MaxNat(end as int - start as int, Count(needle, '\n'))
            && HitLine(Join(lines, '\n'), needle, 0, r.start)
            && (forall h :: HitLine(Join(lines, '\n'), needle, 0, h) ==> Nearer(r.start, h, start))
  {
    RepairShape(lines, start, end, needle);
    NearestHit(Join(lines, '\n'), needle, start);
  }

  /** The range a rewrite names holds the anchor. */
  lemma RepairInRange(lines: seq<string>, start: nat, end: nat, needle: string)
    requires Free(lines, '\n') && RepairAnchored(lines, start, end, needle).Rewrite?
    ensures var r := RepairAnchored(lines, start, end, needle); InRange(lines, r.start, r.end, needle)
  {
    RepairShape(lines, start, end, needle);
    var r := RepairAnchored(lines, start, end, needle);
    RepairChoice(lines, start, end, needle);
    HitHolds(lines, needle, r.start, Width(start, end, needle));
  }

  /** What the fixer rewrites, and to what: a citation of a known file with a readable
      anchor. */
  lemma RewriteChoice(ctx: Context, pieces: seq<string>, k: nat)
    requires IsCite(pieces, k) && RepairOf(ctx, pieces, k).Rewrite?
    ensures var c := Body(pieces[k]).value;
            && !ForeignPath(c.path) && c.path in ctx.files && AnchorAt(pieces, k).Anchor?
            && var lines, needle := FileLines(ctx.files[c.path]), Strip(AnchorAt(pieces, k).text);
               && RepairOf(ctx, pieces, k) == RepairAnchored(lines, Start(c), End(c), needle)
               && Free(lines, '\n')
  {
    FileLinesFree(ctx.files[Body(pieces[k]).value.path], []);
  }
}
