/** The exact condition of every failure the flash layout gate reports, in terms of the
    rows of the map. */
module FlashVerdicts {
  import opened PyText
  import opened FlashGate
  import opened FlashSafety

  // ------------------------------------------------------------------ rows and spans

  /** The row's size in bytes: its MiB field, or without one its KiB field. */
  predicate Sized(row: Row, size: int)
    requires row.Row?
  {
    if row.sizeMib.Some? then size == row.sizeMib.value * 1048576
    else row.sizeKib.Some? && size == row.sizeKib.value * 1024
  }

  /** The row is authored at an address and lies at `[lo, hi)`. */
  predicate Lies(row: Row, lo: int, hi: int) { row.Row? && row.base == Address(lo) && Sized(row, hi - lo) }

  /** The row is listed as `s`: by its address, or a YAML boolean read as 0 or 1. */
  predicate Lists(row: Row, s: Span) {
    && row.Row? && s.name == row.name && s.wa == row.writeAuthority && Sized(row, s.hi - s.lo)
    && (row.base == Address(s.lo) || (row.base == Flag(true) && s.lo == 1) || (row.base == Flag(false) && s.lo == 0))
  }

  lemma RowExact(row: Row, lo: int, hi: int, s: Span)
    ensures Lies(row, lo, hi) <==> row.Row? && Extent(row) == Some((lo, hi))
    ensures Lists(row, s) <==> row.Row? && SpanOf(row) == Some(s)
  {
  }

  /** The spans a preset check lists are those of its rows. */
  lemma SpansExact(rows: seq<Row>, s: Span)
    ensures s in Spans(rows) <==> exists r :: r in rows && Lists(r, s)
  {
    SpansFacts(rows);
    forall r | r in rows ensures Lists(r, s) <==> r.Row? && SpanOf(r) == Some(s) { RowExact(r, 0, 0, s); }
  }

  // ------------------------------------------------------------- the class rule

  /** A row inside the aperture, but not all of it, whose flag is not the boolean false. */
  ghost predicate Misclassed(row: Row, ap: Aperture, n: string, lo: int, hi: int) {
    Lies(row, lo, hi) && row.name == n && ap.0 <= lo && hi <= ap.1 && !(lo == ap.0 && hi == ap.1) && row.carveout != Some(false)
  }

  lemma ClassExact(row: Row, ap: Aperture, f: Failure)
    ensures f in ClassFailure(row, ap) <==> f.NotFlash? && Misclassed(row, ap, f.name, f.lo, f.hi)
  {
    if f.NotFlash? { RowExact(row, f.lo, f.hi, Span(0, 0, "", None)); }
  }

  lemma {:induction false} ClassesExact(rows: seq<Row>, ap: Aperture, f: Failure)
    ensures f in Classes(rows, ap) <==> f.NotFlash? && exists r :: r in rows && Misclassed(r, ap, f.name, f.lo, f.hi)
  {
    if rows != [] {
      ClassExact(rows[0], ap, f);
      ClassesExact(rows[1..], ap, f);
      assert rows == [rows[0]] + rows[1..];
    }
  }

  // ---------------------------------------------------------------- the tiling

  /** How far the pieces reach from the bottom of the aperture. */
  function Reach(ps: seq<Piece>, from: int): int
    decreases ps
  {
    if ps == [] then from else Reach(ps[1..], Max(from, ps[0].hi))
  }

  /** That is the highest end among them, or where they start from. */
  lemma {:induction false} ReachExact(ps: seq<Piece>, from: int, at: int)
    ensures Reach(ps, from) == at <==>
            at >= from && (forall p :: p in ps ==> p.hi <= at) && (at == from || exists p :: p in ps && p.hi == at)
    decreases ps
  {
    if ps != [] {
      assert ps == [ps[0]] + ps[1..];
      ReachExact(ps[1..], Max(from, ps[0].hi), at);
      ReachExact(ps[1..], Max(from, ps[0].hi), Reach(ps, from));
    }
  }

  /** What piece `i` of the sorted pieces is reported for. */
  ghost predicate PieceSays(ps: seq<Piece>, i: nat, from: int, ap: Aperture, f: Failure)
    requires i < |ps|
  {
    var p, c := ps[i], Reach(ps[..i], from);
    match f
    case Straddles(n, lo, hi) => p == Piece(lo, hi, n) && lo < ap.0
    case Gap(a, b) => ap.0 <= p.lo == b && a == c < b
    case Overlap(n, lo, hi, at) => p == Piece(lo, hi, n) && ap.0 <= lo < c == at
    case _ => false
  }

  /** And what is reported at the top. */
  ghost predicate EndSays(ps: seq<Piece>, from: int, ap: Aperture, f: Failure) {
    match f
    case Gap(a, b) => a == Reach(ps, from) < b == ap.1
    case Overflow(at) => at == Reach(ps, from) > ap.1
    case _ => false
  }

  lemma {:induction false} SweepExact(ps: seq<Piece>, from: int, ap: Aperture, f: Failure)
    ensures f in Sweep(ps, from, ap) <==> EndSays(ps, from, ap, f) || exists i :: 0 <= i < |ps| && PieceSays(ps, i, from, ap, f)
    decreases ps
  {
    if ps != [] {
      var next := Max(from, ps[0].hi);
      SweepExact(ps[1..], next, ap, f);
      assert ps[..0] == [];
      forall i | 0 < i < |ps| ensures PieceSays(ps, i, from, ap, f) <==> PieceSays(ps[1..], i - 1, next, ap, f) {
        assert ps[..i][1..] == ps[1..][..i - 1] && ps[1..][i - 1] == ps[i];
      }
      FirstSays(ps, from, ap, f);
      LaterSays(ps, from, ap, f);
    }
  }

  lemma FirstSays(ps: seq<Piece>, from: int, ap: Aperture, f: Failure)
    requires ps != [] && ps[..0] == []
    ensures f in PieceFailure(ps[0], from, ap) <==> PieceSays(ps, 0, from, ap, f)
  {
  }

  lemma LaterSays(ps: seq<Piece>, from: int, ap: Aperture, f: Failure)
    requires ps != []
    requires forall i :: 0 < i < |ps| ==> (PieceSays(ps, i, from, ap, f) <==> PieceSays(ps[1..], i - 1, Max(from, ps[0].hi), ap, f))
    ensures (exists i :: 0 < i < |ps| && PieceSays(ps, i, from, ap, f))
            <==> exists i :: 0 <= i < |ps[1..]| && PieceSays(ps[1..], i, Max(from, ps[0].hi), ap, f)
  {
    if i :| 0 <= i < |ps[1..]| && PieceSays(ps[1..], i, Max(from, ps[0].hi), ap, f) {
      assert PieceSays(ps, i + 1, from, ap, f);
    }
    if i :| 0 < i < |ps| && PieceSays(ps, i, from, ap, f) {
      assert PieceSays(ps[1..], i - 1, Max(from, ps[0].hi), ap, f);
    }
  }

  /** The pieces are the rows that reach into the aperture without being all of it. */
  lemma ContainedExact(rows: seq<Row>, ap: Aperture, p: Piece)
    ensures p in Contained(rows, ap) <==>
            exists r :: r in rows && Lies(r, p.lo, p.hi) && r.name == p.name && !(p.lo == ap.0 && p.hi == ap.1) && ap.0 < p.hi && p.lo < ap.1
  {
    ContainedFacts(rows, ap);
    forall r | r in rows
      ensures PieceOf(r, ap) == Some(p) <==>
              Lies(r, p.lo, p.hi) && r.name == p.name && !(p.lo == ap.0 && p.hi == ap.1) && ap.0 < p.hi && p.lo < ap.1
    {
      RowExact(r, p.lo, p.hi, Span(0, 0, "", None));
    }
  }

  /** What the tiling reports, over the sorted pieces. */
  ghost predicate TilingSays(rows: seq<Row>, ap: Aperture, f: Failure) {
    var ps := SortBy(Contained(rows, ap), PieceLE);
    ps != [] && (EndSays(ps, ap.0, ap, f) || exists i :: 0 <= i < |ps| && PieceSays(ps, i, ap.0, ap, f))
  }

  lemma TilingMeans(rows: seq<Row>, ap: Aperture, f: Failure)
    ensures f in Tiling(rows, ap) <==> TilingSays(rows, ap, f)
  {
    var ps := SortBy(Contained(rows, ap), PieceLE);
    SortByKeeps(Contained(rows, ap), PieceLE);
    assert |multiset(ps)| == |multiset(Contained(rows, ap))|;
    SweepExact(ps, ap.0, ap, f);
  }

  // ---------------------------------------------------------- the top and the windows

  /** The spans that end at the top, of positive size where that is asked. */
  ghost predicate AtTop(rows: seq<Row>, top: int, sized: bool, s: Span) {
    s in Spans(rows) && s.hi == top && (sized ==> s.lo < s.hi)
  }

  /** The first of them by size, base and name. */
  ghost predicate Owner(rows: seq<Row>, top: int, sized: bool, s: Span) {
    AtTop(rows, top, sized, s) && forall t :: AtTop(rows, top, sized, t) ==> TopLE(s, t)
  }

  ghost predicate TopSays(rows: seq<Row>, top: int, sized: bool, f: Failure) {
    match f
    case TopUnowned(t) => t == top && forall s :: !AtTop(rows, top, sized, s)
    case TopMisnamed(n) => n != "atoc" && exists s :: Owner(rows, top, sized, s) && s.name == n
    case TopWritable(n, lo, hi) => exists s :: AtTop(rows, top, sized, s) && s.wa == Some("customer_runtime") && n == s.name && lo == s.lo && hi == s.hi
    case _ => false
  }

  lemma {:induction false} WritableExact(atTop: seq<Span>, f: Failure)
    ensures f in WritableTops(atTop) <==>
            f.TopWritable? && exists s :: s in atTop && s.wa == Some("customer_runtime") && f.name == s.name && f.lo == s.lo && f.hi == s.hi
  {
    if atTop != [] {
      WritableExact(atTop[1..], f);
      assert atTop == [atTop[0]] + atTop[1..];
    }
  }

  lemma FirstIsOwner(rows: seq<Row>, top: int, sized: bool)
    ensures var atTop := SortBy(Ending(Spans(rows), top, sized), TopLE);
            && (forall s :: s in atTop <==> AtTop(rows, top, sized, s))
            && (atTop != [] ==> Owner(rows, top, sized, atTop[0]))
            && (forall s :: Owner(rows, top, sized, s) ==> atTop != [] && TopLE(s, atTop[0]) && TopLE(atTop[0], s))
  {
    var ends := Ending(Spans(rows), top, sized);
    var atTop := SortBy(ends, TopLE);
    EndingFacts(Spans(rows), top, sized);
    TopOrder();
    SortBySorts(ends, TopLE);
    forall s | s in atTop ensures TopLE(atTop[0], s) {
      var k :| 0 <= k < |atTop| && atTop[k] == s;
      if k == 0 { LexTotal(s.name, s.name); }
    }
  }

  lemma SameOwner(a: Span, b: Span)
    requires TopLE(a, b) && TopLE(b, a)
    ensures a.name == b.name
  {
    LexAntisymmetric(a.name, b.name);
  }

  lemma TopExact(rows: seq<Row>, top: int, sized: bool, f: Failure)
    ensures f in TopFailures(SortBy(Ending(Spans(rows), top, sized), TopLE), top) <==> TopSays(rows, top, sized, f)
  {
    var atTop := SortBy(Ending(Spans(rows), top, sized), TopLE);
    FirstIsOwner(rows, top, sized);
    WritableExact(atTop, f);
    if atTop != [] {
      forall s | Owner(rows, top, sized, s) ensures s.name == atTop[0].name { SameOwner(s, atTop[0]); }
      assert atTop[0] in atTop;
    }
  }

  lemma {:induction false} CeilingsExact(windows: seq<(string, int, int)>, band: int, f: Failure)
    ensures f in Ceilings(windows, band) <==>
            f.CeilingPastBand? && f.band == band && exists w :: w in windows && f.cpu == w.0 && f.top == w.1 + w.2 && f.top > band
  {
    if windows != [] {
      CeilingsExact(windows[1..], band, f);
      assert windows == [windows[0]] + windows[1..];
    }
  }

  /** The base of the first listed row that is named `atoc`. */
  ghost predicate FirstAtoc(rows: seq<Row>, band: int) {
    exists i :: 0 <= i < |Spans(rows)| && Spans(rows)[i].name == "atoc" && Spans(rows)[i].lo == band
                && forall j :: 0 <= j < i ==> Spans(rows)[j].name != "atoc"
  }

  lemma {:induction false} BandExact(spans: seq<Span>, band: int)
    ensures BandBase(spans) == Some(band) <==>
            exists i :: 0 <= i < |spans| && spans[i].name == "atoc" && spans[i].lo == band && forall j :: 0 <= j < i ==> spans[j].name != "atoc"
  {
    if spans != [] && spans[0].name != "atoc" {
      var rest := spans[1..];
      BandExact(rest, band);
      if i :| 0 <= i < |rest| && rest[i].name == "atoc" && rest[i].lo == band && forall j :: 0 <= j < i ==> rest[j].name != "atoc" {
        assert spans[i + 1].name == "atoc";
        forall j | 0 <= j < i + 1 ensures spans[j].name != "atoc" { if j > 0 { assert rest[j - 1] == spans[j]; } }
      }
      if i :| 0 <= i < |spans| && spans[i].name == "atoc" && spans[i].lo == band && forall j :: 0 <= j < i ==> spans[j].name != "atoc" {
        assert rest[i - 1].name == "atoc";
        forall j | 0 <= j < i - 1 ensures rest[j].name != "atoc" { assert rest[j] == spans[j + 1]; }
      }
    }
  }

  /** A core's window reaches past the first `atoc` row's base. */
  ghost predicate CeilingSays(rows: seq<Row>, f: Failure) {
    f.CeilingPastBand? && FirstAtoc(rows, f.band) && exists w :: w in WINDOWS && f.cpu == w.0 && f.top == w.1 + w.2 && f.top > f.band
  }

  lemma CeilingsMean(rows: seq<Row>, f: Failure)
    ensures f in (if BandBase(Spans(rows)).Some? then Ceilings(WINDOWS, BandBase(Spans(rows)).value) else []) <==> CeilingSays(rows, f)
  {
    var band := BandBase(Spans(rows));
    if band.Some? {
      BandExact(Spans(rows), band.value);
      CeilingsExact(WINDOWS, band.value, f);
    }
    if f.CeilingPastBand? { BandExact(Spans(rows), f.band); }
  }

  // ------------------------------------------------------------------ the whole gate

  /** Over an aperture, a failure is reported if and only if a window reaches past the
      band, the top is unowned, misnamed or writable, the tiling fails, or a contained
      row is misclassed; and nothing is reported of a map that lists no row. */
  lemma PresetExact(rows: seq<Row>, ap: Aperture, f: Failure)
    ensures f in PresetFailures(rows, Some(ap)) <==>
            && (exists s :: s in Spans(rows))
            && (|| CeilingSays(rows, f) || TopSays(rows, ap.1, true, f) || TilingSays(rows, ap, f)
                || (f.NotFlash? && exists r :: r in rows && Misclassed(r, ap, f.name, f.lo, f.hi)))
  {
    CeilingsMean(rows, f);
    TopExact(rows, ap.1, true, f);
    TilingMeans(rows, ap, f);
    ClassesExact(rows, ap, f);
    SomeSpan(rows);
  }

  lemma SomeSpan(rows: seq<Row>)
    ensures Spans(rows) != [] <==> exists s :: s in Spans(rows)
  {
    if Spans(rows) != [] { assert Spans(rows)[0] in Spans(rows); }
  }

  /** The class rule, end to end: a row is reported if and only if it lies inside the
      aperture without being all of it and its flag is not the boolean false. */
  lemma NotFlashExact(rows: seq<Row>, ap: Aperture, n: string, lo: int, hi: int)
    ensures NotFlash(n, lo, hi) in PresetFailures(rows, Some(ap)) <==>
            exists r :: r in rows && Lies(r, lo, hi) && r.name == n && ap.0 <= lo && hi <= ap.1 && !(lo == ap.0 && hi == ap.1)
                        && r.carveout != Some(false)
  {
    var f := NotFlash(n, lo, hi);
    PresetExact(rows, ap, f);
    if r :| r in rows && Misclassed(r, ap, n, lo, hi) {
      SpansExact(rows, Span(lo, hi, n, r.writeAuthority));
      assert Lists(r, Span(lo, hi, n, r.writeAuthority));
      assert Span(lo, hi, n, r.writeAuthority) in Spans(rows);
    }
    forall r | r in rows
      ensures Misclassed(r, ap, n, lo, hi) <==>
              Lies(r, lo, hi) && r.name == n && ap.0 <= lo && hi <= ap.1 && !(lo == ap.0 && hi == ap.1) && r.carveout != Some(false)
    {
    }
  }

  /** So in a clean preset every contained row but the whole-device alias is marked. */
  lemma CleanFlags(rows: seq<Row>, ap: Aperture, r: Row, lo: int, hi: int)
    requires PresetFailures(rows, Some(ap)) == [] && r in rows && Lies(r, lo, hi)
    requires ap.0 <= lo && hi <= ap.1 && !(lo == ap.0 && hi == ap.1)
    ensures r.carveout == Some(false)
  {
    NotFlashExact(rows, ap, r.name, lo, hi);
  }

  /** The highest end among the listed rows. */
  ghost predicate HighestEnd(rows: seq<Row>, top: int) {
    (exists s :: s in Spans(rows) && s.hi == top) && forall s :: s in Spans(rows) ==> s.hi <= top
  }

  lemma {:induction false} HighestExact(spans: seq<Span>)
    requires spans != []
    ensures (exists s :: s in spans && s.hi == Highest(spans)) && forall s :: s in spans ==> s.hi <= Highest(spans)
  {
    if |spans| == 1 {
      assert spans[0] in spans;
    } else {
      HighestExact(spans[1..]);
      assert spans == [spans[0]] + spans[1..];
      assert spans[0] in spans;
    }
  }

  /** Without an aperture the top is the highest end of a listed row, of any size, and
      the tiling and the class rule are not asked. */
  lemma NoApertureExact(rows: seq<Row>, f: Failure)
    ensures f in PresetFailures(rows, None) <==>
            CeilingSays(rows, f) || exists top :: HighestEnd(rows, top) && TopSays(rows, top, false, f)
  {
    SomeSpan(rows);
    CeilingsMean(rows, f);
    if Spans(rows) != [] {
      var top := Highest(Spans(rows));
      HighestExact(Spans(rows));
      assert HighestEnd(rows, top);
      TopExact(rows, top, false, f);
      forall t | HighestEnd(rows, t) ensures t == top { }
    }
  }

  /** A clean report without an aperture: the smallest row at the highest end is named
      `atoc`, no row the application may write ends there, and every core's window ends
      at or below the first `atoc` row. */
  lemma CleanWithoutAperture(rows: seq<Row>, top: int)
    requires PresetFailures(rows, None) == [] && HighestEnd(rows, top)
    ensures exists s :: Owner(rows, top, false, s) && s.name == "atoc"
    ensures forall s :: AtTop(rows, top, false, s) ==> s.wa != Some("customer_runtime")
    ensures forall band, w :: FirstAtoc(rows, band) && w in WINDOWS ==> w.1 + w.2 <= band
  {
    var s := SomeOwner(rows, top);
    CleanNever(rows, top, TopMisnamed(s.name));
    assert s.name == "atoc";
    forall s | AtTop(rows, top, false, s) ensures s.wa != Some("customer_runtime") {
      CleanNever(rows, top, TopWritable(s.name, s.lo, s.hi));
    }
    forall band, w | FirstAtoc(rows, band) && w in WINDOWS ensures w.1 + w.2 <= band {
      CleanNever(rows, top, CeilingPastBand(w.0, w.1 + w.2, band));
    }
  }

  lemma SomeOwner(rows: seq<Row>, top: int) returns (s: Span)
    requires HighestEnd(rows, top)
    ensures Owner(rows, top, false, s)
  {
    FirstIsOwner(rows, top, false);
    var t :| t in Spans(rows) && t.hi == top;
    assert AtTop(rows, top, false, t);
    s := SortBy(Ending(Spans(rows), top, false), TopLE)[0];
  }

  lemma CleanNever(rows: seq<Row>, top: int, f: Failure)
    requires PresetFailures(rows, None) == [] && HighestEnd(rows, top)
    ensures !TopSays(rows, top, false, f) && !CeilingSays(rows, f)
  {
    NoApertureExact(rows, f);
  }

  // ----------------------------------------------------------------------- the skips

  /** The notes name exactly the rows that do not lie anywhere. */
  lemma {:induction false} SkipsExact(rows: seq<Row>, n: string)
    ensures n in Skipped(rows) <==> exists r :: r in rows && r.Row? && r.name == n && !exists lo, hi :: Lies(r, lo, hi)
  {
    if rows != [] {
      SkipsExact(rows[1..], n);
      assert rows == [rows[0]] + rows[1..];
      NoExtent(rows[0]);
    }
  }

  lemma NoExtent(row: Row)
    ensures row.Row? ==> (Extent(row).None? <==> !exists lo, hi :: Lies(row, lo, hi))
  {
    forall lo, hi ensures Lies(row, lo, hi) <==> row.Row? && Extent(row) == Some((lo, hi)) { RowExact(row, lo, hi, Span(0, 0, "", None)); }
    if row.Row? && Extent(row).Some? { assert Lies(row, Extent(row).value.0, Extent(row).value.1); }
  }
}
