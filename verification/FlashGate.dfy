/** The flash layout gate: which rows own the top of the MRAM aperture, whether
    the rows inside it tile it, and whether they are classed as flash. */
module FlashGate {
  import opened PyText

  /** A row's `base`: an integer, a YAML boolean (an integer to `isinstance`), or anything else. */
  datatype Base = Address(addr: int) | Flag(value: bool) | Unresolved

  /** One `memory_map:` entry; a size field or flag that is not usable reads as `None`. */
  datatype Row =
    | NotARow
    | Row(name: string, base: Base, sizeMib: Option<int>, sizeKib: Option<int>,
          writeAuthority: Option<string>, carveout: Option<bool>)

  datatype Span = Span(lo: int, hi: int, name: string, wa: Option<string>)

  type Aperture = (int, int)

  datatype Failure =
    | CeilingPastBand(cpu: string, top: int, band: int)
    | TopUnowned(top: int)
    | TopMisnamed(name: string)
    | TopWritable(name: string, lo: int, hi: int)
    | Straddles(name: string, lo: int, hi: int)
    | Gap(lo: int, hi: int)
    | Overlap(name: string, lo: int, hi: int, cursor: int)
    | Overflow(cursor: int)
    | NotFlash(name: string, lo: int, hi: int)

  const RUNTIME := "customer_runtime"
  const ATOC := "atoc"

  /** `scripts/aen_atoc.SLOT0_WINDOWS`: per cpu id, base and size. */
  const MRAM_BASE := 0x80000000
  const MRAM_END := 0x80580000
  const A32_CEILING := MRAM_END - 32 * 1024
  const WINDOWS: seq<(string, int, int)> := [
    ("M55_HE", 0x80010000, 2688 * 1024),
    ("M55_HP", 0x802b0000, 2688 * 1024),
    ("A32_0", 0x80002000, A32_CEILING - 0x80002000)]

  function SizeBytes(row: Row): Option<int>
    requires row.Row?
  {
    if row.sizeMib.Some? then Some(row.sizeMib.value * 1024 * 1024)
    else if row.sizeKib.Some? then Some(row.sizeKib.value * 1024)
    else None
  }

  /** The row's `[base, base + size)`; a boolean base does not count as an address here. */
  function Extent(row: Row): Option<(int, int)>
    requires row.Row?
  {
    if row.base.Address? && SizeBytes(row).Some? then Some((row.base.addr, row.base.addr + SizeBytes(row).value)) else None
  }

  /** The row as the preset check lists it; here a boolean base is the integer 0 or 1. */
  function SpanOf(row: Row): Option<Span>
    requires row.Row?
  {
    if row.base.Unresolved? || SizeBytes(row).None? then None
    else
      var base := if row.base.Address? then row.base.addr else if row.base.value then 1 else 0;
      Some(Span(base, base + SizeBytes(row).value, row.name, row.writeAuthority))
  }

  function Spans(rows: seq<Row>): seq<Span> {
    if rows == [] then []
    else (if rows[0].Row? && SpanOf(rows[0]).Some? then [SpanOf(rows[0]).value] else []) + Spans(rows[1..])
  }

  // -------------------------------------------------------------------- sorting

  function Insert<T>(x: T, xs: seq<T>, le: (T, T) -> bool): seq<T> {
    if xs == [] || le(x, xs[0]) then [x] + xs else [xs[0]] + Insert(x, xs[1..], le)
  }

  /** `sorted(xs)` under the order `le`. */
  function SortBy<T>(xs: seq<T>, le: (T, T) -> bool): seq<T> {
    if xs == [] then [] else Insert(xs[0], SortBy(xs[1..], le), le)
  }

  ghost predicate TotalOrder<T(!new)>(le: (T, T) -> bool) {
    && (forall a, b :: le(a, b) || le(b, a))
    && (forall a, b, c :: le(a, b) && le(b, c) ==> le(a, c))
  }

  ghost predicate SortedBy<T(!new)>(xs: seq<T>, le: (T, T) -> bool) {
    forall i, j :: 0 <= i < j < |xs| ==> le(xs[i], xs[j])
  }

  lemma {:induction false} InsertSorts<T(!new)>(x: T, xs: seq<T>, le: (T, T) -> bool)
    requires TotalOrder(le) && SortedBy(xs, le)
    ensures SortedBy(Insert(x, xs, le), le)
    ensures forall y :: y in Insert(x, xs, le) <==> y == x || y in xs
  {
    if xs != [] && !le(x, xs[0]) {
      InsertSorts(x, xs[1..], le);
      var r := Insert(x, xs[1..], le);
      assert xs == [xs[0]] + xs[1..];
      forall y | y in r ensures le(xs[0], y) {
        if y != x { var k :| 0 <= k < |xs[1..]| && xs[1..][k] == y; assert xs[k + 1] == y; }
      }
      assert SortedBy([xs[0]] + r, le);
    } else if xs != [] {
      forall y | y in xs ensures le(x, y) { var k :| 0 <= k < |xs| && xs[k] == y; }
    }
  }

  lemma {:induction false} SortBySorts<T(!new)>(xs: seq<T>, le: (T, T) -> bool)
    requires TotalOrder(le)
    ensures SortedBy(SortBy(xs, le), le)
    ensures forall y :: y in SortBy(xs, le) <==> y in xs
  {
    if xs != [] {
      SortBySorts(xs[1..], le);
      InsertSorts(xs[0], SortBy(xs[1..], le), le);
      assert xs == [xs[0]] + xs[1..];
    }
  }

  lemma {:induction false} InsertKeeps<T>(x: T, xs: seq<T>, le: (T, T) -> bool)
    ensures multiset(Insert(x, xs, le)) == multiset{x} + multiset(xs)
  {
    if xs == [] || le(x, xs[0]) {
    } else {
      InsertKeeps(x, xs[1..], le);
      assert xs == [xs[0]] + xs[1..];
    }
  }

  /** Sorting keeps every element as often as it was. */
  lemma {:induction false} SortByKeeps<T>(xs: seq<T>, le: (T, T) -> bool)
    ensures multiset(SortBy(xs, le)) == multiset(xs)
  {
    if xs != [] {
      SortByKeeps(xs[1..], le);
      InsertKeeps(xs[0], SortBy(xs[1..], le), le);
      assert xs == [xs[0]] + xs[1..];
    }
  }

  /** Rows at the top sort by size, then base, then name. */
  predicate TopLE(a: Span, b: Span) {
    || a.hi - a.lo < b.hi - b.lo
    || (a.hi - a.lo == b.hi - b.lo && (a.lo < b.lo || (a.lo == b.lo && LexLE(a.name, b.name))))
  }

  lemma TopOrder()
    ensures TotalOrder(TopLE)
  {
    forall a: Span, b: Span ensures TopLE(a, b) || TopLE(b, a) { LexTotal(a.name, b.name); }
    forall a: Span, b: Span, c: Span | TopLE(a, b) && TopLE(b, c) ensures TopLE(a, c) {
      if LexLE(a.name, b.name) && LexLE(b.name, c.name) { LexTransitive(a.name, b.name, c.name); }
    }
  }

  datatype Piece = Piece(lo: int, hi: int, name: string)

  predicate PieceLE(a: Piece, b: Piece) {
    || a.lo < b.lo
    || (a.lo == b.lo && (a.hi < b.hi || (a.hi == b.hi && LexLE(a.name, b.name))))
  }

  lemma PieceOrder()
    ensures TotalOrder(PieceLE)
  {
    forall a: Piece, b: Piece ensures PieceLE(a, b) || PieceLE(b, a) { LexTotal(a.name, b.name); }
    forall a: Piece, b: Piece, c: Piece | PieceLE(a, b) && PieceLE(b, c) ensures PieceLE(a, c) {
      if LexLE(a.name, b.name) && LexLE(b.name, c.name) { LexTransitive(a.name, b.name, c.name); }
    }
  }

  // ------------------------------------------------------------- 4b: the tiling

  /** The rows the tiling looks at: neither the whole device nor outside the aperture. */
  function PieceOf(row: Row, ap: Aperture): Option<Piece> {
    if row.NotARow? || Extent(row).None? then None
    else
      var (lo, hi) := Extent(row).value;
      if lo == ap.0 && hi == ap.1 then None
      else if hi <= ap.0 || lo >= ap.1 then None
      else Some(Piece(lo, hi, row.name))
  }

  function Contained(rows: seq<Row>, ap: Aperture): seq<Piece> {
    if rows == [] then []
    else Pieces(rows[0], ap) + Contained(rows[1..], ap)
  }

  /** Names of the rows skipped for want of an extent. */
  function Skipped(rows: seq<Row>): seq<string> {
    if rows == [] then []
    else SkipOf(rows[0]) + Skipped(rows[1..])
  }

  function SkipOf(row: Row): seq<string> { if row.Row? && Extent(row).None? then [row.name] else [] }

  function Pieces(row: Row, ap: Aperture): seq<Piece> { if PieceOf(row, ap).Some? then [PieceOf(row, ap).value] else [] }

  function Max(a: int, b: int): int { if a < b then b else a }

  function PieceFailure(p: Piece, cursor: int, ap: Aperture): seq<Failure> {
    if p.lo < ap.0 then [Straddles(p.name, p.lo, p.hi)]
    else if p.lo > cursor then [Gap(cursor, p.lo)]
    else if p.lo < cursor then [Overlap(p.name, p.lo, p.hi, cursor)]
    else []
  }

  function Closing(cursor: int, ap: Aperture): seq<Failure> {
    if cursor < ap.1 then [Gap(cursor, ap.1)] else if cursor > ap.1 then [Overflow(cursor)] else []
  }

  function Sweep(ps: seq<Piece>, cursor: int, ap: Aperture): seq<Failure>
    decreases ps
  {
    if ps == [] then Closing(cursor, ap)
    else PieceFailure(ps[0], cursor, ap) + Sweep(ps[1..], Max(cursor, ps[0].hi), ap)
  }

  function Tiling(rows: seq<Row>, ap: Aperture): seq<Failure> {
    var contained := Contained(rows, ap);
    if contained == [] then [] else Sweep(SortBy(contained, PieceLE), ap.0, ap)
  }

  method CollectContained(rows: seq<Row>, ap: Aperture) returns (contained: seq<Piece>, skips: seq<string>)
    ensures contained == Contained(rows, ap) && skips == Skipped(rows)
  {
    contained, skips := [], [];
    for i := 0 to |rows|
      invariant contained + Contained(rows[i..], ap) == Contained(rows, ap)
      invariant skips + Skipped(rows[i..]) == Skipped(rows)
    {
      assert rows[i..][0] == rows[i] && rows[i..][1..] == rows[i + 1..];
      var found, skip := PlaceRow(rows[i], ap);
      Assoc(contained, found, Contained(rows[i + 1..], ap));
      Assoc(skips, skip, Skipped(rows[i + 1..]));
      contained, skips := contained + found, skips + skip;
    }
  }

  /** One row of that loop: skipped, passed over, or a piece. */
  method PlaceRow(row: Row, ap: Aperture) returns (found: seq<Piece>, skip: seq<string>)
    ensures found == Pieces(row, ap) && skip == SkipOf(row)
  {
    found, skip := [], [];
    if row.NotARow? { return; }
    var ext := Extent(row);
    if ext.None? {
      skip := [row.name];
      return;
    }
    var (lo, hi) := ext.value;
    if lo == ap.0 && hi == ap.1 { return; }
    if hi <= ap.0 || lo >= ap.1 { return; }
    found := [Piece(lo, hi, row.name)];
  }

  /** The sweep itself: `cursor` is how far the sorted pieces have reached. */
  method SweepPieces(contained: seq<Piece>, ap: Aperture) returns (failures: seq<Failure>)
    ensures failures == Sweep(contained, ap.0, ap)
  {
    failures := [];
    var cursor := ap.0;
    for i := 0 to |contained|
      invariant failures + Sweep(contained[i..], cursor, ap) == Sweep(contained, ap.0, ap)
    {
      var p := contained[i];
      assert contained[i..][0] == p && contained[i..][1..] == contained[i + 1..];
      var found := JudgePiece(p, cursor, ap);
      Assoc(failures, found, Sweep(contained[i + 1..], Max(cursor, p.hi), ap));
      failures := failures + found;
      cursor := Max(cursor, p.hi);
    }
    assert contained[|contained|..] == [];
    failures := failures + Closing(cursor, ap);
  }

  method JudgePiece(p: Piece, cursor: int, ap: Aperture) returns (found: seq<Failure>)
    ensures found == PieceFailure(p, cursor, ap)
  {
    found := [];
    if p.lo < ap.0 {
      found := [Straddles(p.name, p.lo, p.hi)];
    } else if p.lo > cursor {
      found := [Gap(cursor, p.lo)];
    } else if p.lo < cursor {
      found := [Overlap(p.name, p.lo, p.hi, cursor)];
    }
  }

  /** The source's loops: collect, sort, then sweep. */
  method CheckTiling(rows: seq<Row>, ap: Aperture) returns (failures: seq<Failure>, skips: seq<string>)
    ensures failures == Tiling(rows, ap) && skips == Skipped(rows)
  {
    var contained: seq<Piece>;
    contained, skips := CollectContained(rows, ap);
    if contained == [] { return [], skips; }
    failures := SweepPieces(SortBy(contained, PieceLE), ap);
  }

  // --------------------------------------------------- 4c: flash by containment

  function ClassFailure(row: Row, ap: Aperture): seq<Failure> {
    if row.NotARow? || Extent(row).None? then []
    else
      var (lo, hi) := Extent(row).value;
      if lo == ap.0 && hi == ap.1 then []
      else if !(lo >= ap.0 && hi <= ap.1) then []
      else if row.carveout != Some(false) then [NotFlash(row.name, lo, hi)] else []
  }

  function Classes(rows: seq<Row>, ap: Aperture): seq<Failure> {
    if rows == [] then [] else ClassFailure(rows[0], ap) + Classes(rows[1..], ap)
  }

  method CheckClasses(rows: seq<Row>, ap: Aperture) returns (failures: seq<Failure>, skips: seq<string>)
    ensures failures == Classes(rows, ap) && skips == Skipped(rows)
  {
    failures, skips := [], [];
    for i := 0 to |rows|
      invariant failures + Classes(rows[i..], ap) == Classes(rows, ap)
      invariant skips + Skipped(rows[i..]) == Skipped(rows)
    {
      assert rows[i..][0] == rows[i] && rows[i..][1..] == rows[i + 1..];
      var found, skip := ClassRow(rows[i], ap);
      Assoc(failures, found, Classes(rows[i + 1..], ap));
      Assoc(skips, skip, Skipped(rows[i + 1..]));
      failures, skips := failures + found, skips + skip;
    }
  }

  method ClassRow(row: Row, ap: Aperture) returns (found: seq<Failure>, skip: seq<string>)
    ensures found == ClassFailure(row, ap) && skip == SkipOf(row)
  {
    found, skip := [], [];
    if row.NotARow? { return; }
    var ext := Extent(row);
    if ext.None? {
      skip := [row.name];
    } else if ext.value != ap && ext.value.0 >= ap.0 && ext.value.1 <= ap.1 {
      if row.carveout != Some(false) { found := [NotFlash(row.name, ext.value.0, ext.value.1)]; }
    }
  }

  // -------------------------------------------------------- the top of the window

  function Ending(spans: seq<Span>, top: int, sized: bool): seq<Span> {
    if spans == [] then []
    else (if spans[0].hi == top && (sized ==> spans[0].hi > spans[0].lo) then [spans[0]] else []) + Ending(spans[1..], top, sized)
  }

  function WritableTops(atTop: seq<Span>): seq<Failure> {
    if atTop == [] then []
    else (if atTop[0].wa == Some(RUNTIME) then [TopWritable(atTop[0].name, atTop[0].lo, atTop[0].hi)] else [])
         + WritableTops(atTop[1..])
  }

  function TopFailures(atTop: seq<Span>, top: int): seq<Failure> {
    if atTop == [] then [TopUnowned(top)]
    else (if atTop[0].name != ATOC then [TopMisnamed(atTop[0].name)] else []) + WritableTops(atTop)
  }

  function Highest(spans: seq<Span>): int
    requires spans != []
  {
    if |spans| == 1 then spans[0].hi else Max(spans[0].hi, Highest(spans[1..]))
  }

  /** The base of the first row named `atoc`. */
  function BandBase(spans: seq<Span>): Option<int> {
    if spans == [] then None else if spans[0].name == ATOC then Some(spans[0].lo) else BandBase(spans[1..])
  }

  function Ceilings(windows: seq<(string, int, int)>, band: int): seq<Failure> {
    if windows == [] then []
    else
      var top := windows[0].1 + windows[0].2;
      (if top > band then [CeilingPastBand(windows[0].0, top, band)] else []) + Ceilings(windows[1..], band)
  }

  /** The preset check over a parsed `memory_map:` and the resolved aperture. */
  function PresetFailures(rows: seq<Row>, aperture: Option<Aperture>): seq<Failure> {
    var spans := Spans(rows);
    if spans == [] then []
    else
      var band := BandBase(spans);
      var ceilings := if band.Some? then Ceilings(WINDOWS, band.value) else [];
      match aperture
      case Some(ap) =>
        ceilings + TopFailures(SortBy(Ending(spans, ap.1, true), TopLE), ap.1) + Tiling(rows, ap) + Classes(rows, ap)
      case None =>
        var top := Highest(spans);
        ceilings + TopFailures(SortBy(Ending(spans, top, false), TopLE), top)
  }

  method CheckTop(atTop: seq<Span>, top: int) returns (failures: seq<Failure>)
    ensures failures == TopFailures(atTop, top)
  {
    if atTop == [] { return [TopUnowned(top)]; }
    failures := [];
    if atTop[0].name != ATOC { failures := [TopMisnamed(atTop[0].name)]; }
    for i := 0 to |atTop|
      invariant failures + WritableTops(atTop[i..]) == TopFailures(atTop, top)
    {
      assert atTop[i..][0] == atTop[i] && atTop[i..][1..] == atTop[i + 1..];
      var found := if atTop[i].wa == Some(RUNTIME) then [TopWritable(atTop[i].name, atTop[i].lo, atTop[i].hi)] else [];
      Assoc(failures, found, WritableTops(atTop[i + 1..]));
      failures := failures + found;
    }
    assert failures + [] == failures;
  }

  method CollectSpans(rows: seq<Row>) returns (spans: seq<Span>)
    ensures spans == Spans(rows)
  {
    spans := [];
    for i := 0 to |rows|
      invariant spans + Spans(rows[i..]) == Spans(rows)
    {
      assert rows[i..][0] == rows[i] && rows[i..][1..] == rows[i + 1..];
      var found: seq<Span> := [];
      if rows[i].Row? {
        var s := SpanOf(rows[i]);
        if s.Some? { found := [s.value]; }
      }
      Assoc(spans, found, Spans(rows[i + 1..]));
      spans := spans + found;
    }
  }

  method CheckCeilings(band: int) returns (failures: seq<Failure>)
    ensures failures == Ceilings(WINDOWS, band)
  {
    failures := [];
    for w := 0 to |WINDOWS|
      invariant failures + Ceilings(WINDOWS[w..], band) == Ceilings(WINDOWS, band)
    {
      assert WINDOWS[w..][0] == WINDOWS[w] && WINDOWS[w..][1..] == WINDOWS[w + 1..];
      var (cpu, base, size) := WINDOWS[w];
      var found := if base + size > band then [CeilingPastBand(cpu, base + size, band)] else [];
      Assoc(failures, found, Ceilings(WINDOWS[w + 1..], band));
      failures := failures + found;
    }
  }

  method CheckPreset(rows: seq<Row>, aperture: Option<Aperture>) returns (failures: seq<Failure>)
    ensures failures == PresetFailures(rows, aperture)
  {
    failures := [];
    var spans := CollectSpans(rows);
    if spans == [] { return; }
    var band := BandBase(spans);
    if band.Some? { failures := CheckCeilings(band.value); }
    if aperture.Some? {
      var ap := aperture.value;
      var tops := CheckTop(SortBy(Ending(spans, ap.1, true), TopLE), ap.1);
      var tiling, skips1 := CheckTiling(rows, ap);
      var classes, skips2 := CheckClasses(rows, ap);
      failures := failures + tops + tiling + classes;
    } else {
      var top := Highest(spans);
      var tops := CheckTop(SortBy(Ending(spans, top, false), TopLE), top);
      failures := failures + tops;
    }
  }
}
